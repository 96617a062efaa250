/** The request path of `QueryUtils`: building the URL, one GET over an
    abstract network, reading the body, and handing it to the extraction.
    The network is a parameter: what the platform's URL parser accepts, and
    what happens when a URL is fetched. */
module Request {
  import opened Wrappers
  import opened Json
  import opened TechNewsRecord
  import opened Extraction

  /** The HTTP status that counts as success; every other status is a failure. */
  const HttpOk: int := 200

  /** A `java.net.URL` built from its text. */
  datatype Url = Url(spec: string)

  /** How reading the body of a 200 response went. */
  datatype Body =
    | StreamUnavailable                            // getInputStream threw: no stream was opened
    | Lines(lines: seq<string>, closeFails: bool)  // every line read; closing the stream may still throw
    | ReadFailed(closeFails: bool)                 // a readLine threw; the opened stream is still closed

  /** What one GET did, as `makeHttpRequest` sees it. The body is only
      looked at when the status is 200. */
  datatype Exchange =
    | NotHttp                        // the URL opens a connection that is not an HttpURLConnection
    | ConnectFailed                  // opening, connecting or reading the status threw
    | Responded(code: int, body: Body)

  /** The network as seen by this code: which texts the URL parser accepts,
      and the exchange a GET of a URL produces. */
  datatype Network = Network(urlParses: string -> bool, get: Url -> Exchange)

  /** How `makeHttpRequest` ends: it returns a string, an `IOException`
      escapes from its `finally` block, or the cast of a connection that is
      not HTTP throws a `ClassCastException`, which no `catch` handles. */
  datatype Reply = Returned(text: string) | Threw | CastFailed

  /** How `fetchNewsData` ends: it returns a list or `null`, or the
      `ClassCastException` escapes it too. */
  datatype Fetched = Completed(news: Option<seq<TechNews>>) | Crashed

  /** The body of a 200 response exactly as it was delivered, closed cleanly. */
  predicate DeliveredCleanly(e: Exchange) {
    e.Responded? && e.code == HttpOk && e.body.Lines? && !e.body.closeFails
  }

  /** The lines of a stream in order, each already stripped of its line
      terminator by the reader, joined with nothing in between. */
  function Concat(lines: seq<string>): string
    decreases |lines|
  {
    if |lines| == 0 then "" else Concat(lines[..|lines| - 1]) + lines[|lines| - 1]
  }

  /** `QueryUtils.readFromStream`: the lines appended one after the other
      to a builder; a null stream gives the empty string. */
  method ReadFromStream(stream: Option<seq<string>>) returns (output: string)
    ensures stream.None? ==> output == ""
    ensures stream.Some? ==> output == Concat(stream.value)
  {
    output := "";
    if stream.Some? {
      var lines := stream.value;
      var i := 0;
      while i < |lines|
        invariant 0 <= i <= |lines|
        invariant output == Concat(lines[..i])
      {
        assert lines[..i + 1][..i] == lines[..i];
        output := output + lines[i];
        i := i + 1;
      }
      assert lines[..i] == lines;
    }
  }

  /** `QueryUtils.createUrl`: null when the text is not a well-formed URL. */
  function CreateUrl(net: Network, spec: string): (r: Option<Url>)
    ensures r.None? <==> !net.urlParses(spec)
    ensures r.Some? ==> r.value.spec == spec
  {
    if net.urlParses(spec) then Some(Url(spec)) else None
  }

  /** `QueryUtils.makeHttpRequest`: no request is made for a null URL.
      A null URL, a failed connection, a status other than 200 and a failed
      read all give the empty string; only a 200 response whose lines were
      all read gives their concatenation. Once a stream was opened, a failing
      `close` in the `finally` block replaces the outcome by an exception.
      A URL whose connection is not HTTP (a `file:` or `ftp:` URL, say)
      fails the cast before anything is opened, and that exception is not
      an `IOException`. */
  method MakeHttpRequest(net: Network, url: Option<Url>) returns (reply: Reply)
    ensures url.None? ==> reply == Returned("")
    ensures url.Some? ==>
      match net.get(url.value)
      case NotHttp => reply == CastFailed
      case ConnectFailed => reply == Returned("")
      case Responded(code, body) =>
        if code != HttpOk then reply == Returned("")
        else match body
          case StreamUnavailable => reply == Returned("")
          case ReadFailed(closeFails) => reply == (if closeFails then Threw else Returned(""))
          case Lines(lines, closeFails) => reply == (if closeFails then Threw else Returned(Concat(lines)))
    ensures reply.Returned? && reply.text != "" ==> url.Some? && DeliveredCleanly(net.get(url.value))
  {
    if url.None? {
      return Returned("");
    }
    match net.get(url.value)
    case NotHttp =>
      reply := CastFailed;
    case ConnectFailed =>
      reply := Returned("");
    case Responded(code, body) =>
      if code == HttpOk {
        match body
        case StreamUnavailable =>
          reply := Returned("");
        case ReadFailed(closeFails) =>
          reply := if closeFails then Threw else Returned("");
        case Lines(lines, closeFails) =>
          var text := ReadFromStream(Some(lines));
          reply := if closeFails then Threw else Returned(text);
      } else {
        reply := Returned("");
      }
  }

  /** `QueryUtils.fetchNewsData`: the article list, or None for Java's `null`.
      It catches only `IOException`, so a URL whose connection is not HTTP
      makes it fail. Otherwise the list exists only when the URL parses, the
      server answered 200, the body was read and closed cleanly and is not
      empty; it is then exactly what the extraction makes of the body text. */
  method FetchNewsData(lib: Library, net: Network, requestUrl: string) returns (outcome: Fetched)
    ensures outcome.Crashed? <==> net.urlParses(requestUrl) && net.get(Url(requestUrl)).NotHttp?
    ensures !net.urlParses(requestUrl) ==> outcome == Completed(None)
    ensures outcome.Completed? && !DeliveredCleanly(net.get(Url(requestUrl))) ==> outcome.news.None?
    ensures net.urlParses(requestUrl) && DeliveredCleanly(net.get(Url(requestUrl))) ==>
      outcome == Completed(ExtractFeatureFromJson(lib, Some(Concat(net.get(Url(requestUrl)).body.lines))))
    ensures outcome.Completed? && outcome.news.Some? <==>
      net.urlParses(requestUrl) && DeliveredCleanly(net.get(Url(requestUrl)))
      && Concat(net.get(Url(requestUrl)).body.lines) != ""
  {
    var url := CreateUrl(net, requestUrl);
    var reply := MakeHttpRequest(net, url);
    if reply.CastFailed? {
      return Crashed;
    }
    var jsonResponse: Option<string> := if reply.Returned? then Some(reply.text) else None;
    outcome := Completed(ExtractFeatureFromJson(lib, jsonResponse));
  }
}
