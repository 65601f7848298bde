/** The parts of `System.Net.Http` the crawler touches: a request message
    whose headers are changed in place, and a client whose transport is an
    abstract function of the requests it has been handed so far. */
module Http {
  import opened Common

  datatype Method = Get | Post

  /** A request body: `FormUrlEncodedContent` (already encoded) or
      `StringContent` with its media type and character encoding. */
  datatype Content =
    | FormContent(encoded: string)
    | StringContent(text: string, mediaType: string, encoding: string)

  /** Everything the transport sees of a request. */
  datatype RequestValue = RequestValue(
    verb: Method,
    uri: Option<string>,
    headers: map<string, seq<string>>,
    content: Option<Content>)

  /** How `new HttpRequestMessage(method, requestUri)` reads its string: a
      null or empty string gives no URI; any other string goes to
      `System.Uri`, here `parse`, which answers None for a malformed URI
      (the constructor throws `UriFormatException`) and otherwise the URI
      as `ToString` prints it. */
  function RequestUri(parse: string -> Option<string>, requestUri: Option<string>): Result<Option<string>>
  {
    if requestUri.None? || requestUri.value == "" then Ok(None)
    else if parse(requestUri.value).None? then Threw(UriFormatException)
    else Ok(parse(requestUri.value))
  }

  /** `HttpRequestMessage`: HTTP method (`verb`) and URI fixed at construction, headers
      and content changed in place. */
  class HttpRequestMessage {
    const verb: Method
    const uri: Option<string>
    var headers: map<string, seq<string>>
    var content: Option<Content>

    /** `new HttpRequestMessage(method, requestUri)`, once `RequestUri` has
        read the string without throwing. */
    constructor (verb: Method, uri: Option<string>)
      ensures this.verb == verb && this.uri == uri
      ensures headers == map[] && content == None
    {
      this.verb := verb;
      this.uri := uri;
      headers := map[];
      content := None;
    }

    function Value(): RequestValue
      reads this
    {
      RequestValue(verb, uri, headers, content)
    }

    predicate Contains(name: string)
      reads this
    {
      name in headers
    }

    method SetContent(c: Content)
      modifies this
      ensures content == Some(c) && headers == old(headers)
    {
      content := Some(c);
    }

    /** `Headers.Remove(name)`: drops every value of that header. */
    method RemoveHeader(name: string)
      modifies this
      ensures headers == old(headers) - {name} && content == old(content)
    {
      headers := headers - {name};
    }

    /** `Headers.Add(name, value)`: appends one value to that header. */
    method AddHeader(name: string, value: string)
      modifies this
      ensures headers == old(headers)[name := (if name in old(headers) then old(headers)[name] else []) + [value]]
      ensures content == old(content)
    {
      headers := headers[name := (if name in headers then headers[name] else []) + [value]];
    }
  }

  /** Reading the response content either gives its text or throws. */
  datatype Body = Text(text: string) | ReadFault(error: Exception)

  /** What the crawler looks at in an `HttpResponseMessage`: the status
      code, the values of its `Set-Cookie` header (none when absent) and
      the body. */
  datatype Reply = Reply(status: int, setCookies: seq<string>, body: Body)

  /** The transport's answer: `SendAsync` throws at once, the task's
      `Result` throws, or a response arrives. */
  datatype TransportResult =
    | Rejected(error: Exception)
    | Faulted(error: Exception)
    | Delivered(reply: Reply)

  /** `HttpClient`: every request handed to `SendAsync` is recorded, and the
      answer is a fixed function of the earlier requests and this one. */
  class HttpClient {
    const respond: (seq<RequestValue>, RequestValue) -> TransportResult
    var sent: seq<RequestValue>

    constructor (respond: (seq<RequestValue>, RequestValue) -> TransportResult)
      ensures this.respond == respond && sent == []
    {
      this.respond := respond;
      sent := [];
    }

    method Send(request: RequestValue) returns (r: TransportResult)
      modifies this
      ensures r == respond(old(sent), request)
      ensures sent == old(sent) + [request]
    {
      r := respond(sent, request);
      sent := sent + [request];
    }
  }
}
