/**
 * HttpUrl and HttpUrlStruct around the network: the defaults, the steps that
 * can fail before a reply and the empty response they return, the cap on the
 * response size with its truncation, the Content-Encoding dispatch, the status
 * line and the response record each path fills in.
 *
 * Parsing the proxy address, configuring HTTP/2, building and sending the
 * request, header-key canonicalisation and the decompressors are library and
 * network behaviour: they are the fields of a Network value given as input.
 */
module HttpClient {
  import opened Wrappers
  import opened GoStrings
  import opened HttpHeaders

  /** The cap on the response size when none is given: 200 MiB. */
  const DefaultMaxResponseSize: int := 200 * 1024 * 1024

  /** The timeout HttpUrlStruct writes back when none is given, in seconds. */
  const DefaultTimeout: int := 30

  const MinInt64: int := -0x8000_0000_0000_0000
  const MaxInt64: int := 0x7FFF_FFFF_FFFF_FFFF

  // ---------------------------------------------------------------------
  // Requests, replies and responses
  // ---------------------------------------------------------------------

  /** The arguments of HttpUrl. A nil postData and an empty one are both the empty sequence. */
  datatype Call = Call(
    url: string,
    httpMethod: string,
    postData: Bytes,
    cookie: string,
    headersText: string,
    allowRedirects: bool,
    proxy: string,
    timeout: int,
    maxResponseSize: int,
    ignoreCertErrors: bool)

  /** The request handed to client.Do, with the settings of the client that sends it. */
  datatype Outgoing = Outgoing(
    httpMethod: string,
    url: string,
    body: Bytes,
    header: Header,
    allowRedirects: bool,
    proxy: string,
    timeout: int,
    ignoreCertErrors: bool)

  /**
   * What client.Do returns: the status, the header map and a body stream
   * that delivers `stream` and then either the end of input or, when
   * `streamFails`, a read error. An io.Reader may hand back its last bytes
   * and the error from the same Read call: `failsWithLast` says that it does.
   */
  datatype Reply = Reply(
    statusCode: int,
    proto: string,
    status: string,
    header: Header,
    stream: Bytes,
    streamFails: bool,
    failsWithLast: bool)

  /** HttpResponse */
  datatype Response = Response(
    statusCode: int,
    proto: string,
    status: string,
    headers: Header,
    statusLine: string,
    rawHeaders: string,
    body: Bytes)

  /** The error HttpUrl or HttpUrlStruct returns, one per error message of the source. */
  datatype Failure =
    | ProxyURL             // "parsing proxy URL"
    | Http2Configure       // "http2 configure"
    | NewRequest           // "new request"
    | ParseHeaders         // "parsing headers"
    | SendRequest          // "sending request"
    | ReadBody             // "reading body"
    | ExceedsMaxSize       // "response exceeds max size"
    | DecoderReader(encoding: string)  // "gzip reader", "deflate reader", "zstd reader"
    | DecoderRead(encoding: string)    // "gzip read", "deflate read", "brotli read", "zstd read"
    | NilRequest           // "req is nil"

  /**
   * The library and the network, as far as HttpUrl sees them: whether the
   * proxy address parses, whether HTTP/2 can be configured, whether the
   * request can be built, http.CanonicalHeaderKey, client.Do, whether a
   * decompressor can be opened on a body and what reading it gives.
   */
  datatype Network = Network(
    proxyParses: string -> bool,
    http2Configures: bool,
    requestBuilds: (string, string) -> bool,
    canon: string -> string,
    send: Outgoing -> Option<Reply>,
    opens: (string, Bytes) -> bool,
    decodes: (string, Bytes) -> Option<Bytes>)

  /** newEmptyResponse: no status, no headers, no body. */
  function EmptyResponse(): Response
  {
    Response(0, "", "", map[], "", "", [])
  }

  /** The first line of a response: the protocol, a space, the status text and "\r\n". */
  function StatusLine(proto: string, status: string): string
  {
    proto + " " + status + "\r\n"
  }

  /**
   * The status line cuts back into its parts: the protocol ends at the first
   * space, the status text runs from there to the closing "\r\n".
   */
  lemma StatusLineParts(proto: string, status: string)
    requires ' ' !in proto
    ensures var line := StatusLine(proto, status);
      && Index(line, " ") == |proto|
      && line[..|proto|] == proto
      && line[|proto| + 1..|line| - 2] == status
      && line[|line| - 2..] == "\r\n"
  {
    var line := StatusLine(proto, status);
    assert line == proto + (" " + status + "\r\n");
    IndexAfterClearPrefix(proto, " ", " " + status + "\r\n");
  }

  // ---------------------------------------------------------------------
  // Defaults
  // ---------------------------------------------------------------------

  /** The size cap in force: MaxResponseSize, or 200 MiB when it is below 1. */
  function Cap(maxResponseSize: int): (c: int)
    ensures c >= 1
  {
    if maxResponseSize < 1 then DefaultMaxResponseSize else maxResponseSize
  }

  // ---------------------------------------------------------------------
  // Reading the body under the cap
  // ---------------------------------------------------------------------

  /** What io.ReadAll over io.LimitedReader gives: the bytes, whether a read error surfaced, and the N left. */
  datatype Limited = Limited(body: Bytes, failed: bool, left: int)

  /**
   * io.ReadAll(&io.LimitedReader{R: stream, N: limit}): a reader whose N is
   * not positive reports the end of input at once; otherwise it asks for at
   * most N bytes at a time and passes on what it gets. A stream shorter than
   * N is read whole, with its error if it fails. A stream of exactly N bytes
   * whose error comes with its last bytes is read whole with the error.
   * Otherwise the reader stops after N bytes and reports the end of input,
   * so an error that would come later is never seen.
   */
  function ReadLimited(reply: Reply, limit: int): Limited
  {
    var stream := reply.stream;
    if limit <= 0 then Limited([], false, limit)
    else if |stream| < limit then Limited(stream, reply.streamFails, limit - |stream|)
    else if |stream| == limit && reply.streamFails && reply.failsWithLast then Limited(stream, true, 0)
    else Limited(stream[..limit], false, 0)
  }

  /** resp.Header.Get: the first value of a key, or "" when it has none. */
  function FirstValue(h: Header, key: string): string
  {
    if key in h && h[key] != [] then h[key][0] else ""
  }

  /** What was made of the body: the error, if any, and the body the response carries. */
  datatype Received = Received(failure: Option<Failure>, body: Bytes)

  /** Reading a decompressor to its end: the decoded bytes, or an empty body and an error. */
  function ReadDecoder(net: Network, encoding: string, body: Bytes): Received
  {
    match net.decodes(encoding, body)
    case None => Received(Some(DecoderRead(encoding)), [])
    case Some(decoded) => Received(None, decoded)
  }

  /** The switch on Content-Encoding: gzip, deflate and zstd open a reader that may fail, br cannot fail to open. */
  function Decode(net: Network, encoding: string, body: Bytes): Received
  {
    if encoding == "gzip" || encoding == "deflate" || encoding == "zstd" then
      if !net.opens(encoding, body) then Received(Some(DecoderReader(encoding)), body)
      else ReadDecoder(net, encoding, body)
    else if encoding == "br" then ReadDecoder(net, encoding, body)
    else Received(None, body)
  }

  /**
   * The body of a reply under the cap: read at most cap + 1 bytes, report a
   * read error with what was read, report a body longer than the cap with its
   * first cap bytes, and otherwise decode it by its Content-Encoding. A read
   * error is reported with up to cap + 1 bytes: the error may come with the
   * byte past the cap.
   */
  function Receive(net: Network, reply: Reply, cap: int): (r: Received)
    requires cap >= 1
    ensures r.failure == Some(ExceedsMaxSize) ==> |r.body| == cap
    ensures r.failure == Some(ReadBody) ==> |r.body| <= cap + 1 && r.body == reply.stream
    ensures r.failure == Some(ReadBody) && |r.body| == cap + 1 ==> reply.failsWithLast
  {
    var read := ReadLimited(reply, cap + 1);
    if read.failed then Received(Some(ReadBody), read.body)
    else if read.left <= 0 then Received(Some(ExceedsMaxSize), read.body[..cap])
    else Decode(net, FirstValue(reply.header, "Content-Encoding"), read.body)
  }

  /** The stream is one byte over the cap and its error comes with that byte. */
  predicate FailsPastCap(reply: Reply, cap: int)
  {
    |reply.stream| == cap + 1 && reply.streamFails && reply.failsWithLast
  }

  /**
   * The size cap, in terms of the stream: a body longer than the cap is an
   * error and is cut to its first cap bytes, whether or not the stream fails
   * afterwards, except that an error coming with the one byte past the cap is
   * a read error with all cap + 1 bytes; a body within the cap is kept whole,
   * with a read error if the stream failed and otherwise handed to the decoder.
   */
  lemma SizeCap(net: Network, reply: Reply, cap: int)
    requires cap >= 1
    ensures |reply.stream| > cap && !FailsPastCap(reply, cap) ==>
      Receive(net, reply, cap) == Received(Some(ExceedsMaxSize), reply.stream[..cap])
    ensures FailsPastCap(reply, cap) ==> Receive(net, reply, cap) == Received(Some(ReadBody), reply.stream)
    ensures |reply.stream| <= cap && reply.streamFails ==> Receive(net, reply, cap) == Received(Some(ReadBody), reply.stream)
    ensures |reply.stream| <= cap && !reply.streamFails ==>
      Receive(net, reply, cap) == Decode(net, FirstValue(reply.header, "Content-Encoding"), reply.stream)
  {
    if |reply.stream| > cap && !FailsPastCap(reply, cap) {
      assert reply.stream[..cap + 1][..cap] == reply.stream[..cap];
    }
  }

  /**
   * The encoding dispatch on a body within the cap: an encoding other than
   * gzip, deflate, br and zstd (none at all included) leaves the body as it
   * is; a decompressor that cannot be opened leaves the raw body with an
   * error; one that fails while reading leaves an empty body with an error;
   * otherwise the body is the decoded bytes, however many, since the cap
   * applied to the encoded ones.
   */
  lemma ReceiveDispatch(net: Network, reply: Reply, cap: int)
    requires cap >= 1 && |reply.stream| <= cap && !reply.streamFails
    ensures var encoding, body, r := FirstValue(reply.header, "Content-Encoding"), reply.stream, Receive(net, reply, cap);
      && (encoding !in {"gzip", "deflate", "br", "zstd"} ==> r == Received(None, body))
      && (encoding in {"gzip", "deflate", "zstd"} && !net.opens(encoding, body) ==>
            r == Received(Some(DecoderReader(encoding)), body))
      && (encoding == "br" || (encoding in {"gzip", "deflate", "zstd"} && net.opens(encoding, body)) ==>
            r == if net.decodes(encoding, body).None? then Received(Some(DecoderRead(encoding)), [])
                 else Received(None, net.decodes(encoding, body).value))
  {
    SizeCap(net, reply, cap);
  }

  /** MaxResponseSize + 1 computed on int64: past the largest int64 it wraps to the smallest. */
  function Int64Succ(n: int): (r: int)
    requires MinInt64 <= n <= MaxInt64
    ensures MinInt64 <= r <= MaxInt64
    ensures n < MaxInt64 ==> r == n + 1
    ensures n == MaxInt64 ==> r == MinInt64
  {
    if n == MaxInt64 then MinInt64 else n + 1
  }

  /**
   * The size check as the source writes it, with int64 arithmetic: None when
   * the slice body[:MaxResponseSize] is out of range, where Go panics.
   */
  function ReceiveAsWritten(net: Network, reply: Reply, cap: int): Option<Received>
    requires 1 <= cap <= MaxInt64
  {
    var read := ReadLimited(reply, Int64Succ(cap));
    if read.failed then Some(Received(Some(ReadBody), read.body))
    else if read.left <= 0 then
      if cap <= |read.body| then Some(Received(Some(ExceedsMaxSize), read.body[..cap])) else None
    else Some(Decode(net, FirstValue(reply.header, "Content-Encoding"), read.body))
  }

  /**
   * With MaxResponseSize at the largest int64, the limit wraps negative: the
   * limited reader hands out nothing and reports the limit reached, so every
   * reply, even an empty one, ends in the out-of-range slice.
   */
  lemma LargestCapPanics(net: Network, reply: Reply)
    ensures ReceiveAsWritten(net, reply, MaxInt64) == None
  {
    assert Int64Succ(MaxInt64) < 0;
  }

  /** Below the largest int64 the size check as written agrees with Receive. */
  lemma AsWrittenBelowLargest(net: Network, reply: Reply, cap: int)
    requires 1 <= cap < MaxInt64
    ensures ReceiveAsWritten(net, reply, cap) == Some(Receive(net, reply, cap))
  {
    var read := ReadLimited(reply, cap + 1);
    assert Int64Succ(cap) == cap + 1;
    if !read.failed && read.left <= 0 {
      assert |read.body| == cap + 1;
    }
  }

  // ---------------------------------------------------------------------
  // The whole call
  // ---------------------------------------------------------------------

  /** The request as sent: the cookie parameter and then the header text set on an empty header set. */
  function Sent(net: Network, call: Call): Outgoing
  {
    var header := ApplyLines(WithCookie(map[], call.cookie, net.canon), Scan(call.headersText).0, net.canon);
    Outgoing(call.httpMethod, call.url, call.postData, header, call.allowRedirects, call.proxy, call.timeout, call.ignoreCertErrors)
  }

  /** What a call comes to: a failure before any reply, or the reply and what was made of its body. */
  datatype Outcome = Early(failure: Failure) | Replied(reply: Reply, received: Received)

  /** HttpUrl as a function of the network: the steps in the order they can fail. */
  function Fetch(net: Network, call: Call): Outcome
  {
    if call.proxy != "" && !net.proxyParses(call.proxy) then Early(ProxyURL)
    else if !net.http2Configures then Early(Http2Configure)
    else if !net.requestBuilds(call.httpMethod, call.url) then Early(NewRequest)
    else if Scan(call.headersText).1 then Early(ParseHeaders)
    else match net.send(Sent(net, call))
      case None => Early(SendRequest)
      case Some(reply) => Replied(reply, Receive(net, reply, Cap(call.maxResponseSize)))
  }

  /** `raw` is what formatHeaders may write for `h`. */
  ghost predicate IsRendering(raw: string, h: Header)
  {
    exists order :: IsKeyOrder(order, h) && raw == Render(h, order)
  }

  /**
   * The error and response returned for an outcome: an early failure returns
   * the empty response; once there is a reply, every path fills in the status,
   * the headers, the status line and the formatted headers, and the body is
   * the one the cap and the decoder left.
   */
  ghost predicate Answers(err: Option<Failure>, resp: Response, outcome: Outcome)
  {
    match outcome
    case Early(f) => err == Some(f) && resp == EmptyResponse()
    case Replied(reply, received) =>
      && err == received.failure
      && resp.statusCode == reply.statusCode
      && resp.proto == reply.proto
      && resp.status == reply.status
      && resp.headers == reply.header
      && resp.statusLine == StatusLine(reply.proto, reply.status)
      && IsRendering(resp.rawHeaders, reply.header)
      && resp.body == received.body
  }

  /**
   * HttpUrl: default the cap, fail on a proxy address that does not parse, on
   * HTTP/2 set-up, on building the request, on a header text the scanner
   * cannot read and on sending; then read the body under the cap and decode it.
   */
  method HttpUrl(net: Network, call: Call) returns (err: Option<Failure>, resp: Response)
    ensures Answers(err, resp, Fetch(net, call))
  {
    resp := EmptyResponse();
    var maxResponseSize := call.maxResponseSize;
    if maxResponseSize < 1 {
      maxResponseSize := DefaultMaxResponseSize;
    }
    if call.proxy != "" && !net.proxyParses(call.proxy) {
      return Some(ProxyURL), resp;
    }
    if !net.http2Configures {
      return Some(Http2Configure), resp;
    }
    if !net.requestBuilds(call.httpMethod, call.url) {
      return Some(NewRequest), resp;
    }
    var req := new OutgoingRequest();
    var scanFailed := SetHeaderText(req, net.canon, call.cookie, call.headersText);
    if scanFailed {
      return Some(ParseHeaders), resp;
    }
    var sent := Outgoing(call.httpMethod, call.url, call.postData, req.header, call.allowRedirects,
                         call.proxy, call.timeout, call.ignoreCertErrors);
    var reply := net.send(sent);
    if reply.None? {
      return Some(SendRequest), resp;
    }
    var r := reply.value;
    var received := Receive(net, r, maxResponseSize);
    var raw := FormatHeaders(r.header);
    resp := Response(r.statusCode, r.proto, r.status, r.header, StatusLine(r.proto, r.status), raw, received.body);
    return received.failure, resp;
  }

  /**
   * A failure before the reply returns the empty response; a reply is always
   * reported with its status line; a size error returns exactly cap bytes and
   * a read error at most one byte more.
   */
  lemma EarlyOrFilled(net: Network, call: Call, err: Option<Failure>, resp: Response)
    requires Answers(err, resp, Fetch(net, call))
    ensures Fetch(net, call).Early? ==> err.Some? && resp.statusCode == 0 && resp.headers == map[] && resp.body == []
    ensures Fetch(net, call).Replied? ==> resp.statusLine == resp.proto + " " + resp.status + "\r\n"
    ensures err == Some(ExceedsMaxSize) ==> |resp.body| == Cap(call.maxResponseSize)
    ensures err == Some(ReadBody) ==> |resp.body| <= Cap(call.maxResponseSize) + 1
  {
    if Fetch(net, call).Replied? && err.Some? && err.value in {ExceedsMaxSize, ReadBody} {
      var reply := Fetch(net, call).reply;
      var cap := Cap(call.maxResponseSize);
      SizeCap(net, reply, cap);
      if |reply.stream| <= cap && !reply.streamFails {
        ReceiveDispatch(net, reply, cap);
      }
    }
  }

  // ---------------------------------------------------------------------
  // HttpUrlStruct
  // ---------------------------------------------------------------------

  /** HttpRequest: the arguments of HttpUrl in one record that HttpUrlStruct updates in place. */
  class HttpRequest {
    var url: string
    var httpMethod: string
    var postData: Bytes
    var cookie: string
    var headers: string
    var allowRedirects: bool
    var proxy: string
    var timeout: int
    var maxResponseSize: int
    var ignoreCertErrors: bool

    constructor(url: string, httpMethod: string, postData: Bytes, cookie: string, headers: string,
                allowRedirects: bool, proxy: string, timeout: int, maxResponseSize: int, ignoreCertErrors: bool)
      ensures AsCall() == Call(url, httpMethod, postData, cookie, headers, allowRedirects, proxy, timeout,
                               maxResponseSize, ignoreCertErrors)
    {
      this.url, this.httpMethod, this.postData, this.cookie, this.headers := url, httpMethod, postData, cookie, headers;
      this.allowRedirects, this.proxy, this.timeout := allowRedirects, proxy, timeout;
      this.maxResponseSize, this.ignoreCertErrors := maxResponseSize, ignoreCertErrors;
    }

    /** The fields, as the arguments HttpUrl is called with. */
    function AsCall(): Call
      reads this
    {
      Call(url, httpMethod, postData, cookie, headers, allowRedirects, proxy, timeout, maxResponseSize, ignoreCertErrors)
    }
  }

  /** The defaults HttpUrlStruct writes back: a positive timeout, 30 seconds when none was set, and a cap of at least 1. */
  function WithDefaults(call: Call): (r: Call)
    ensures r.timeout >= 1 && r.maxResponseSize >= 1
    ensures r.timeout == (if call.timeout <= 0 then DefaultTimeout else call.timeout)
    ensures r.maxResponseSize == Cap(call.maxResponseSize)
    ensures r.(timeout := call.timeout, maxResponseSize := call.maxResponseSize) == call
  {
    call.(timeout := if call.timeout <= 0 then DefaultTimeout else call.timeout,
          maxResponseSize := if call.maxResponseSize < 1 then DefaultMaxResponseSize else call.maxResponseSize)
  }

  /**
   * HttpUrlStruct: a nil request is an error with the empty response;
   * otherwise the defaults are written into the caller's request, and the
   * call goes on as HttpUrl with its fields.
   */
  method HttpUrlStruct(net: Network, req: HttpRequest?) returns (err: Option<Failure>, resp: Response)
    modifies req
    ensures req == null ==> err == Some(NilRequest) && resp == EmptyResponse()
    ensures req != null ==> req.AsCall() == WithDefaults(old(req.AsCall()))
    ensures req != null ==> Answers(err, resp, Fetch(net, req.AsCall()))
  {
    if req == null {
      return Some(NilRequest), EmptyResponse();
    }
    if req.timeout <= 0 {
      req.timeout := DefaultTimeout;
    }
    if req.maxResponseSize < 1 {
      req.maxResponseSize := DefaultMaxResponseSize;
    }
    err, resp := HttpUrl(net, req.AsCall());
  }

  /** A cap below 1 behaves as a cap of 200 MiB. */
  lemma DefaultCap(net: Network, call: Call)
    requires call.maxResponseSize < 1
    ensures Fetch(net, call) == Fetch(net, call.(maxResponseSize := DefaultMaxResponseSize))
  {
    assert Sent(net, call) == Sent(net, call.(maxResponseSize := DefaultMaxResponseSize));
  }

  /** With a positive timeout, HttpUrlStruct comes to what HttpUrl comes to with the same arguments. */
  lemma StructAsUrl(net: Network, call: Call)
    requires call.timeout >= 1
    ensures Fetch(net, WithDefaults(call)) == Fetch(net, call)
  {
    assert Sent(net, WithDefaults(call)) == Sent(net, call);
  }
}
