/** The caching HTTP proxy of Project1/proxy.py: the check of the client's request
    line (`validURI`) and the relay of the origin server's response
    (`handleOriginResponse` and its three handlers), plus the reply `readFromCache`
    and `handleInvalidRequest` send. Every `sendall` on the client socket becomes one
    string of the list an operation returns, in the order the code sends them; the
    cache file and the origin server's response are inputs and outputs. */
module Proxy {
  import opened Builtins

  // ---------------------------------------------------------------------------
  // Validating the request line

  const ArityError := "ERROR: Your request must contain the following: GET <URL> <HTTP/1.1>\n"
  const MethodError := "ERROR: This server only accepts the method GET\n"
  const SchemeError := "ERROR: Your URL must start with http://\n"
  const SchemeHint := "Only HTTP requests are supported!\n"
  const VersionError := "ERROR: Your HTTP Version must be HTTP/1.1\n"

  /** The four checks `validURI` makes, in the order it makes them. */
  datatype Check = Arity | Method | Scheme | Version

  const Checks: seq<Check> := [Arity, Method, Scheme, Version]

  /** Whether the whitespace-separated request tokens pass one check, taken on its own.
      The three token checks read a request of exactly three tokens. */
  predicate Passes(uri: seq<string>, c: Check)
  {
    match c
    case Arity => |uri| == 3
    case Method => |uri| == 3 && uri[0] == "GET"
    case Scheme => |uri| == 3 && StartsWith(uri[1], "http://")
    case Version => |uri| == 3 && uri[2] == "HTTP/1.1"
  }

  /** Check number `i` is the first one the request fails. */
  predicate FirstFailing(uri: seq<string>, i: nat)
  {
    && i < |Checks|
    && !Passes(uri, Checks[i])
    && forall k :: 0 <= k < i ==> Passes(uri, Checks[k])
  }

  /** What the proxy tells the client when check `c` fails. */
  function Complaint(c: Check): (r: seq<string>)
    ensures r != []
  {
    match c
    case Arity => [ArityError]
    case Method => [MethodError]
    case Scheme => [SchemeError, SchemeHint]
    case Version => [VersionError]
  }

  /** The boolean `validURI` returns and the messages it sends. */
  datatype Verdict = Verdict(valid: bool, sent: seq<string>)

  /** `validURI`: the request is accepted exactly when it passes all four checks, and
      an accepted request gets no message. */
  function ValidUri(uri: seq<string>): (r: Verdict)
    ensures r.valid <==> forall c :: Passes(uri, c)
    ensures r.valid <==> r.sent == []
  {
    if |uri| != 3 then
      assert !Passes(uri, Arity);
      Verdict(false, [ArityError])
    else if uri[0] != "GET" then
      assert !Passes(uri, Method);
      Verdict(false, [MethodError])
    else if !StartsWith(uri[1], "http://") then
      assert !Passes(uri, Scheme);
      Verdict(false, [SchemeError, SchemeHint])
    else if uri[2] != "HTTP/1.1" then
      assert !Passes(uri, Version);
      Verdict(false, [VersionError])
    else
      AllChecksPass(uri);
      Verdict(true, [])
  }

  /** A request that passes the four checks in turn passes every check. */
  lemma AllChecksPass(uri: seq<string>)
    requires forall i :: 0 <= i < |Checks| ==> Passes(uri, Checks[i])
    ensures forall c :: Passes(uri, c)
  {
    forall c ensures Passes(uri, c) {
      match c
      case Arity => assert c == Checks[0];
      case Method => assert c == Checks[1];
      case Scheme => assert c == Checks[2];
      case Version => assert c == Checks[3];
    }
  }

  /** The checks run in order: a rejected request hears about the first check it
      fails, and about no other. */
  lemma OnlyFirstFailureReported(uri: seq<string>, i: nat)
    requires FirstFailing(uri, i)
    ensures ValidUri(uri) == Verdict(false, Complaint(Checks[i]))
  {
    if i > 0 {
      assert Passes(uri, Checks[0]);
    }
    if i > 1 {
      assert Passes(uri, Checks[1]);
    }
    if i > 2 {
      assert Passes(uri, Checks[2]);
    }
  }

  /** Every rejected request fails some check first. */
  lemma RejectionHasFirstFailure(uri: seq<string>)
    requires !ValidUri(uri).valid
    ensures exists i: nat :: FirstFailing(uri, i) && ValidUri(uri).sent == Complaint(Checks[i])
  {
    var i :| 0 <= i < 4 && !Passes(uri, Checks[i]) && forall k :: 0 <= k < i ==> Passes(uri, Checks[k]) by {
      if !Passes(uri, Checks[0]) {
      } else if !Passes(uri, Checks[1]) {
      } else if !Passes(uri, Checks[2]) {
      } else {
        assert !Passes(uri, Checks[3]) by {
          if Passes(uri, Checks[3]) {
            AllChecksPass(uri);
          }
        }
      }
    }
    OnlyFirstFailureReported(uri, i);
  }

  /** The scheme test is a case-sensitive prefix test, so an https URL is refused. */
  lemma HttpsRejected(uri: seq<string>)
    requires |uri| == 3 && uri[0] == "GET" && StartsWith(uri[1], "https://")
    ensures ValidUri(uri) == Verdict(false, [SchemeError, SchemeHint])
  {
    assert uri[1][4] == 's';
  }

  const InvalidRequestError := "ERROR: Your Request was not properly formatted. Closing Connection\nExample Usage: GET http://zhiju.me/networks/valid.html HTTP/1.1\n"

  // ---------------------------------------------------------------------------
  // Parsing the origin server's response

  /** The blank line that ends the header block. */
  const HeaderEnd := "\r\n\r\n"

  /** The values `handleOriginResponse` takes from the decoded response. */
  datatype StatusParts = StatusParts(headers: string, statusLine: string, statusCode: string, body: string)

  /** `headers, body = response.split('\r\n\r\n', 1)`, then the first line of the
      headers and its second space-separated token. Unpacking fails with ValueError
      when there is no blank line; indexing the token fails with IndexError when the
      first line holds no space. */
  function ParseResponse(response: string): (r: Result<StatusParts>)
    ensures r == Err(ValueError) <==> forall j: nat :: !OccursAt(response, HeaderEnd, j)
    ensures r.Err? ==> r.error == ValueError || r.error == IndexError
    ensures r == Err(IndexError) <==>
      SplitOnce(response, HeaderEnd).Ok? && ' ' !in FirstField(SplitOnce(response, HeaderEnd).value.0, '\n')
    ensures r.Ok? ==>
      var p := r.value;
      // the body is everything after the first blank line
      && response == p.headers + HeaderEnd + p.body
      && (forall j :: 0 <= j < |p.headers| ==> !OccursAt(response, HeaderEnd, j))
      // the status line is the first line of the header block
      && p.statusLine <= p.headers && '\n' !in p.statusLine
      && (p.statusLine == p.headers || p.headers[|p.statusLine|] == '\n')
      // the status code is the whole token after the first space of the status line
      && IsSecondField(p.statusLine, ' ', p.statusCode)
  {
    match SplitOnce(response, HeaderEnd)
    case Err(e) => Err(e)
    case Ok((headers, body)) =>
      var statusLine := FirstField(headers, '\n');
      match SecondField(statusLine, ' ')
      case Err(e) => Err(e)
      case Ok(statusCode) => Ok(StatusParts(headers, statusLine, statusCode, body))
  }

  /** A header block that ends in an ordinary character and holds no empty line. */
  predicate NoBlankLine(headers: string)
  {
    && |headers| >= 1
    && headers[|headers| - 1] != '\r' && headers[|headers| - 1] != '\n'
    && forall j :: 0 <= j < |headers| - 2 ==> headers[j] == '\r' ==> headers[j + 2] != '\r'
  }

  /** In a response whose header block has no empty line, the first blank line is the
      one after the header block. */
  lemma HeaderEndAfterHeaders(headers: string, body: string)
    requires NoBlankLine(headers)
    ensures forall j :: 0 <= j < |headers| ==> !OccursAt(headers + HeaderEnd + body, HeaderEnd, j)
  {
    var t := headers + HeaderEnd + body;
    forall j | 0 <= j < |headers|
      ensures !OccursAt(t, HeaderEnd, j)
    {
      assert OccursAt(t, HeaderEnd, j) ==> t[j] == '\r' && t[j + 1] == '\n' && t[j + 2] == '\r' by {
        if OccursAt(t, HeaderEnd, j) {
          assert t[j..j + 4] == HeaderEnd;
        }
      }
      if j == |headers| - 1 {
        assert t[j] == headers[|headers| - 1];
      } else if j == |headers| - 2 {
        assert t[j + 1] == headers[|headers| - 1];
      } else {
        assert t[j] == headers[j] && t[j + 2] == headers[j + 2];
      }
    }
  }

  /** The response text an origin server sends: status line `version code reason`,
      then `fields` (empty, or header lines each introduced by a line feed), a blank
      line and the body. A CRLF-terminated status line has its carriage return at the
      end of `reason`. */
  function ResponseText(version: string, code: string, reason: string, fields: string, body: string): string
  {
    version + " " + code + " " + reason + fields + HeaderEnd + body
  }

  /** A response with a well-formed status line parses back into its parts: the
      status line, the status code and the body. */
  lemma ParseResponseText(version: string, code: string, reason: string, fields: string, body: string)
    requires ' ' !in version && '\n' !in version
    requires ' ' !in code && '\n' !in code
    requires '\n' !in reason
    requires fields == [] || fields[0] == '\n'
    requires NoBlankLine(version + " " + code + " " + reason + fields)
    ensures ParseResponse(ResponseText(version, code, reason, fields, body))
         == Ok(StatusParts(version + " " + code + " " + reason + fields,
                           version + " " + code + " " + reason, code, body))
  {
    var statusLine := version + " " + code + " " + reason;
    var headers := statusLine + fields;
    HeaderEndAfterHeaders(headers, body);
    SplitOnceIs(ResponseText(version, code, reason, fields, body), HeaderEnd, headers, body);
    if fields != [] {
      assert headers[|statusLine|] == fields[0];
    }
    FirstFieldIs(headers, '\n', statusLine);
    SecondFieldIs(statusLine, ' ', version, code, " " + reason);
  }

  // ---------------------------------------------------------------------------
  // Replies to the client

  const CacheMissLine := "Cache-Hit: 0\n"
  const CacheHitLine := "Cache-Hit: 1\n"
  const NotFoundText := "\n404 NOT FOUND\n\n"
  const UnsupportedText := "\nUnsupported Error\n\n"
  /** The status line `readFromCache` sends: only 200 responses are ever cached. */
  const CachedStatusLine := "HTTP/1.1 200 OK"

  /** How the proxy frames a body for the client. */
  function BodyText(body: string): (r: string)
    ensures |r| == |body| + 4 && r[2..|r| - 2] == body
    ensures r != NotFoundText && r != UnsupportedText
  {
    var r := "\n\n" + body + "\n\n";
    assert r[1] != NotFoundText[1] && r[1] != UnsupportedText[1];
    r
  }

  /** `handleSuccessfulResponse`: status line, cache miss, body. */
  function SuccessReply(statusLine: string, body: string): (r: seq<string>)
    ensures |r| == 3 && statusLine < r[0] && |r[0]| == |statusLine| + 1 && r[1] == CacheMissLine
    ensures |r[2]| == |body| + 4 && r[2][2..|r[2]| - 2] == body
  {
    [statusLine + "\n", CacheMissLine, BodyText(body)]
  }

  /** `handleNotFoundResponse`: status line, cache miss, the fixed 404 text. */
  function NotFoundReply(statusLine: string): (r: seq<string>)
    ensures |r| == 3 && statusLine < r[0] && |r[0]| == |statusLine| + 1 && r[1] == CacheMissLine
    ensures forall body :: r != SuccessReply(statusLine, body)
  {
    [statusLine + "\n", CacheMissLine, NotFoundText]
  }

  /** `handleUnsupportedResponse`: status line, cache miss, the fixed error text. */
  function UnsupportedReply(statusLine: string): (r: seq<string>)
    ensures |r| == 3 && statusLine < r[0] && |r[0]| == |statusLine| + 1 && r[1] == CacheMissLine
    ensures forall body :: r != SuccessReply(statusLine, body)
    ensures r != NotFoundReply(statusLine)
  {
    [statusLine + "\n", CacheMissLine, UnsupportedText]
  }

  /** `readFromCache`: a fixed 200 status line, cache hit, the cached body. */
  function CacheReply(cached: string): (r: seq<string>)
    ensures |r| == 3 && r[0] == CachedStatusLine + "\n" && r[1] != CacheMissLine
    ensures |r[2]| == |cached| + 4 && r[2][2..|r[2]| - 2] == cached
  {
    [CachedStatusLine + "\n", CacheHitLine, BodyText(cached)]
  }

  /** What relaying one origin response does: the text written to the cache file, if
      any, and the messages sent to the client. */
  datatype Relay = Relay(cacheWrite: Option<string>, sent: seq<string>)

  /** The dispatch on the status code at the end of `handleOriginResponse`. */
  function Dispatch(p: StatusParts): (r: Relay)
    // every reply starts with the origin's status line and reports a cache miss
    ensures |r.sent| == 3 && r.sent[0] == p.statusLine + "\n" && r.sent[1] == CacheMissLine
    // only a 200 response is cached and its body relayed, and then exactly its body
    ensures r.cacheWrite.Some? <==> p.statusCode == "200"
    ensures r.cacheWrite.Some? ==> r.cacheWrite.value == p.body
    ensures r.sent[2] == BodyText(p.body) <==> p.statusCode == "200"
    // a 404 gets the fixed not-found text, any other code the fixed error text
    ensures p.statusCode == "404" ==> r.sent[2] == NotFoundText
    ensures p.statusCode != "200" && p.statusCode != "404" ==> r.sent[2] == UnsupportedText
  {
    if p.statusCode == "200" then Relay(Some(p.body), SuccessReply(p.statusLine, p.body))
    else if p.statusCode == "404" then
      Relay(None, NotFoundReply(p.statusLine))
    else
      Relay(None, UnsupportedReply(p.statusLine))
  }

  /** `handleOriginResponse`: parse the response, then dispatch on the status code; a
      response that does not parse raises the parser's error. */
  function HandleOriginResponse(response: string): (r: Result<Relay>)
    ensures r.Err? <==> ParseResponse(response).Err?
    ensures r.Err? ==> r.error == ParseResponse(response).error
    ensures r.Ok? ==> r.value == Dispatch(ParseResponse(response).value)
  {
    match ParseResponse(response)
    case Err(e) => Err(e)
    case Ok(p) => Ok(Dispatch(p))
  }

  /** A 200 response is stored and relayed with its status line and body. */
  lemma RelaysFoundResponse(version: string, reason: string, fields: string, body: string)
    requires ' ' !in version && '\n' !in version && '\n' !in reason
    requires fields == [] || fields[0] == '\n'
    requires NoBlankLine(version + " 200 " + reason + fields)
    ensures HandleOriginResponse(ResponseText(version, "200", reason, fields, body))
         == Ok(Relay(Some(body), SuccessReply(version + " 200 " + reason, body)))
  {
    assert version + " " + "200" + " " + reason == version + " 200 " + reason;
    ParseResponseText(version, "200", reason, fields, body);
  }

  /** A 404 response is not stored, and its body is replaced by the fixed 404 text. */
  lemma RelaysNotFoundResponse(version: string, reason: string, fields: string, body: string)
    requires ' ' !in version && '\n' !in version && '\n' !in reason
    requires fields == [] || fields[0] == '\n'
    requires NoBlankLine(version + " 404 " + reason + fields)
    ensures HandleOriginResponse(ResponseText(version, "404", reason, fields, body))
         == Ok(Relay(None, NotFoundReply(version + " 404 " + reason)))
  {
    assert version + " " + "404" + " " + reason == version + " 404 " + reason;
    ParseResponseText(version, "404", reason, fields, body);
  }

  /** Any other status code is not stored and is answered with the fixed error text. */
  lemma RelaysOtherResponse(version: string, code: string, reason: string, fields: string, body: string)
    requires ' ' !in version && '\n' !in version && ' ' !in code && '\n' !in code && '\n' !in reason
    requires code != "200" && code != "404"
    requires fields == [] || fields[0] == '\n'
    requires NoBlankLine(version + " " + code + " " + reason + fields)
    ensures HandleOriginResponse(ResponseText(version, code, reason, fields, body))
         == Ok(Relay(None, UnsupportedReply(version + " " + code + " " + reason)))
  {
    ParseResponseText(version, code, reason, fields, body);
  }

  /** The body stored on a 200 is the one a later cache hit serves: the cached reply
      frames the same body and differs from the first reply in the Cache-Hit line, and
      in the status line unless the origin's was exactly "HTTP/1.1 200 OK". */
  lemma CacheReplaysRelayedBody(p: StatusParts, stored: string)
    requires Dispatch(p).cacheWrite == Some(stored)
    ensures CacheReply(stored)[2] == Dispatch(p).sent[2]
    ensures CacheReply(stored)[1] != Dispatch(p).sent[1]
    ensures CacheReply(stored)[0] == Dispatch(p).sent[0] <==> p.statusLine == CachedStatusLine
  {
    assert CacheHitLine[11] != CacheMissLine[11];
    if p.statusLine + "\n" == CachedStatusLine + "\n" {
      assert p.statusLine == (p.statusLine + "\n")[..|p.statusLine|];
    }
  }
}
