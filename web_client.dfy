/**
 * The transport-agnostic layer of src/web_client.rs: the `Blocking` effect
 * strategy (plain values and `Result`), the default `Response::text`,
 * `Response::error_on_status_code` and `Request::send_ok`, and the
 * `WebClient` implementation of `Client<T>` that adds the Authorization
 * header. A request is its method, url and header list; a response is its
 * status and the outcome of reading its body. The transport itself is a
 * function parameter.
 */
module WebClient {
  import opened Wrappers
  import Utf8
  import Dav
  import Base64

  type byte = Utf8.byte

  /** The outcome type of every client operation. */
  type Outcome<T> = Result<T, Dav.Error>

  // ---------------------------------------------------------------------
  // `Blocking`: a future of T is a T.

  /** `Blocking::ready`. */
  function Ready<T>(value: T): (r: T)
    ensures r == value
  {
    value
  }

  /** `Blocking::map`: the continuation runs on the value at once. */
  function Map<T, O>(value: T, fun: T -> O): (r: O)
    ensures r == fun(value)
  {
    fun(value)
  }

  /** `Blocking::flat_map`: the same as `map`, the inner future being a value. */
  function FlatMap<T, O>(value: T, fun: T -> O): (r: O)
    ensures r == fun(value)
  {
    fun(value)
  }

  /** `Blocking::and_then`: `Result::and_then`. */
  function AndThen<T, O>(value: Outcome<T>, fun: T -> Outcome<O>): (r: Outcome<O>)
    ensures value.Err? ==> r == Err(value.error)
    ensures value.Ok? ==> r == fun(value.value)
  {
    match value
    case Err(e) => Err(e)
    case Ok(v) => fun(v)
  }

  /** `Blocking::flat_and_then`: also `Result::and_then`. */
  function FlatAndThen<T, O>(value: Outcome<T>, fun: T -> Outcome<O>): (r: Outcome<O>)
    ensures value.Err? ==> r == Err(value.error)
    ensures value.Ok? ==> r == fun(value.value)
  {
    AndThen(value, fun)
  }

  /** Mapping a ready value runs the continuation on it; flat_map is map. */
  lemma BlockingLaws<T, O>(x: T, f: T -> O)
    ensures Map(Ready(x), f) == f(x)
    ensures FlatMap(x, f) == Map(x, f)
  {
  }

  /**
   * The monad laws of `and_then`: Ok is its unit on both sides, chaining
   * is associative, and an error skips every continuation, whichever it is.
   */
  lemma AndThenLaws<T, U, O>(x: T, m: Outcome<T>, e: Dav.Error, f: T -> Outcome<U>, g: U -> Outcome<O>,
                             f2: T -> Outcome<U>)
    ensures AndThen(Ok(x), f) == f(x)
    ensures AndThen(m, (v: T) => Ok(v)) == m
    ensures AndThen(AndThen(m, f), g) == AndThen(m, (v: T) => AndThen(f(v), g))
    ensures AndThen(Err(e), f) == AndThen(Err(e), f2) == Err(e)
  {
  }

  // ---------------------------------------------------------------------
  // Requests and responses.

  /** A header: a name and a value, both as octets. */
  type Header = (seq<byte>, seq<byte>)

  /** A request being built: method, url and the headers added so far, in order. */
  datatype Request = Request(httpMethod: string, url: string, headers: seq<Header>)

  /** A response: its status and what reading its body gives. */
  datatype Response = Response(status: Dav.u16, body: Outcome<seq<byte>>)

  /** The transport's `send`: a request and an optional body to a response or a transport error. */
  type Send = (Request, Option<seq<byte>>) -> Outcome<Response>

  /** `Request::header`: one more header, after the others. */
  function WithHeader(request: Request, key: seq<byte>, value: seq<byte>): (r: Request)
    ensures r.httpMethod == request.httpMethod && r.url == request.url
    ensures r.headers == request.headers + [(key, value)]
  {
    request.(headers := request.headers + [(key, value)])
  }

  /** `Response::bytes`. */
  function Bytes(response: Response): Outcome<seq<byte>>
  {
    response.body
  }

  /** `Response::status`. */
  function Status(response: Response): Dav.u16
  {
    response.status
  }

  /** `Response::text`: the body's octets decoded as UTF-8; invalid UTF-8 is a web request error. */
  function Text(response: Response): Outcome<string>
  {
    Map(Bytes(response), (b: Outcome<seq<byte>>) =>
      match b
      case Err(e) => Err(e)
      case Ok(octets) =>
        match Utf8.Decode(octets)
        case None => Err(Dav.WebRequest(Dav.InvalidUtf8))
        case Some(s) => Ok(s))
  }

  /**
   * What `text` gives: a failed read as is; otherwise the string whose
   * UTF-8 is exactly the body, or a web request error when there is none.
   */
  lemma TextSpec(response: Response)
    ensures response.body.Err? ==> Text(response) == Err(response.body.error)
    ensures response.body.Ok? ==>
      (Text(response).Ok? <==> Utf8.Decode(response.body.value).Some?)
    ensures response.body.Ok? && Text(response).Err? ==>
      Text(response).error == Dav.WebRequest(Dav.InvalidUtf8)
    ensures Text(response).Ok? ==> Utf8.Encode(Text(response).value) == response.body.value
  {
    if Text(response).Ok? {
      Utf8.EncodeDecode(response.body.value, Text(response).value);
    }
  }

  /** Every string comes back from a response whose body is its UTF-8. */
  lemma TextOfEncoded(status: Dav.u16, s: string)
    ensures Text(Response(status, Ok(Utf8.Encode(s)))) == Ok(s)
  {
    Utf8.DecodeEncode(s);
  }

  /** Statuses 200 to 299. */
  predicate IsSuccess(status: int) {
    200 <= status < 300
  }

  /**
   * `Response::error_on_status_code`: a 2xx response passes untouched; any
   * other status becomes `ErrorStatus` carrying the status and the body's
   * text when that can be read.
   */
  function ErrorOnStatusCode(response: Response): (r: Outcome<Response>)
    ensures r.Ok? <==> IsSuccess(response.status)
    ensures r.Ok? ==> r.value == response
    ensures r.Err? ==> r.error == Dav.ErrorStatus(response.status, ToOption(Text(response)))
  {
    var status := Status(response);
    if 200 <= status < 300 then
      Ready(Ok(response))
    else
      Map(Text(response), (text: Outcome<string>) => Err(Dav.ErrorStatus(status, ToOption(text))))
  }

  /** The boundaries: 199 and 300 are errors, 200 and 299 are not; a 404 is what `is_404` looks for. */
  lemma StatusBoundaries(body: Outcome<seq<byte>>)
    ensures ErrorOnStatusCode(Response(199, body)).Err?
    ensures ErrorOnStatusCode(Response(200, body)).Ok?
    ensures ErrorOnStatusCode(Response(299, body)).Ok?
    ensures ErrorOnStatusCode(Response(300, body)).Err?
    ensures Dav.Is404(ErrorOnStatusCode(Response(404, body)).error)
  {
  }

  /** The text an error status carries is the body, when the body is readable UTF-8. */
  lemma ErrorStatusText(status: Dav.u16, s: string)
    requires !IsSuccess(status)
    ensures ErrorOnStatusCode(Response(status, Ok(Utf8.Encode(s)))) == Err(Dav.ErrorStatus(status, Option.Some(s)))
  {
    TextOfEncoded(status, s);
  }

  /** `Request::send_ok`: send, then classify the status. */
  function SendOk(send: Send, request: Request, body: Option<seq<byte>>): Outcome<Response>
  {
    FlatAndThen(send(request, body), ErrorOnStatusCode)
  }

  /**
   * A transport error comes back unchanged; an Ok is the transport's own
   * response and has a 2xx status; any other status is `ErrorStatus` with it.
   */
  lemma SendOkSpec(send: Send, request: Request, body: Option<seq<byte>>)
    ensures var sent := send(request, body); var r := SendOk(send, request, body);
      && (sent.Err? ==> r == Err(sent.error))
      && (r.Ok? <==> sent.Ok? && IsSuccess(sent.value.status))
      && (r.Ok? ==> r.value == sent.value)
      && (sent.Ok? && !IsSuccess(sent.value.status) ==>
            r == Err(Dav.ErrorStatus(sent.value.status, ToOption(Text(sent.value)))))
  {
  }

  // ---------------------------------------------------------------------
  // `WebClient for Client<T>`.

  /** The transport's `request(method, url)`, over the transport value. */
  type Open<-T> = (T, string, string) -> Request

  /** The header name `authorization`. */
  function AuthorizationKey(): seq<byte>
  {
    Utf8.Encode("authorization")
  }

  /**
   * `Client::request`: the transport's request for the same method and url,
   * with an Authorization header of `basic_auth` when the client has Basic
   * credentials.
   */
  function ClientRequest<T>(open: Open<T>, client: Dav.Client<T>, httpMethod: string, url: string): (r: Request)
  {
    var request := open(client.webClient, httpMethod, url);
    match client.authentication
    case Basic(username, password) =>
      WithHeader(request, AuthorizationKey(), Dav.BasicAuthValue(username, password))
    case None => request
  }

  /**
   * Method and url reach the transport as given; Basic credentials add
   * exactly one header, `authorization`, whose value is `basic_auth` of
   * them; without authentication the transport's request is returned as is.
   */
  lemma ClientRequestSpec<T>(open: Open<T>, client: Dav.Client<T>, httpMethod: string, url: string)
    ensures var inner := open(client.webClient, httpMethod, url); var r := ClientRequest(open, client, httpMethod, url);
      && r.httpMethod == inner.httpMethod && r.url == inner.url
      && (client.authentication.None? ==> r == inner)
      && (client.authentication.Basic? ==>
            r.headers == inner.headers +
              [(AuthorizationKey(), Dav.BasicAuthValue(client.authentication.username, client.authentication.password))])
  {
  }

  /** The Authorization value on a request carries the client's credentials, recoverable by the server. */
  lemma AuthorizationCarriesCredentials<T>(open: Open<T>, webClient: T, username: string,
                                           password: Option<string>, httpMethod: string, url: string)
    ensures var client := Dav.Authenticated(webClient, Dav.Basic(username, password));
      var r := ClientRequest(open, client, httpMethod, url);
      var v := r.headers[|r.headers| - 1].1;
      && r.headers[|r.headers| - 1].0 == AuthorizationKey()
      && |v| >= 6
      && Utf8.Decode(v[..6]) == Option.Some("Basic ")
      && Base64Credentials(v[6..]) == Option.Some(Dav.Credentials(username, password))
  {
    var r := ClientRequest(open, Dav.Authenticated(webClient, Dav.Basic(username, password)), httpMethod, url);
    var v := Dav.BasicAuthValue(username, password);
    assert r.headers[|r.headers| - 1] == (AuthorizationKey(), v);
    Dav.BasicAuthCarriesCredentials(username, password);
    Utf8.DecodeEncode("Basic ");
  }

  /** A server's reading of the base 64 part of a Basic header: octets, then UTF-8. */
  function Base64Credentials(text: seq<byte>): Option<string>
  {
    match Base64.Decode(text)
    case None => Option.None
    case Some(octets) => Utf8.Decode(octets)
  }
}
