/**
 * The library's request parameters and error taxonomy (src/lib.rs): `Auth`,
 * `Depth` with its derived order, `Error` with `is_404`, the Basic
 * credentials of `basic_auth`, and `Client` with its two constructors.
 */
module Dav {
  import opened Wrappers
  import Utf8
  import Base64
  import Decimal

  type byte = Utf8.byte

  /** Rust's `u16`, the width of an HTTP status code. */
  type u16 = n: int | 0 <= n < 0x1_0000

  /** How requests are authenticated; `Basic` is section 2 of RFC 7617. */
  datatype Auth = None | Basic(username: string, password: Option<string>)

  /** The `depth` of a PROPFIND (section 10.2 of RFC 4918). */
  datatype Depth = Some(n: Decimal.u32) | Infinity

  datatype Ordering = Less | Equal | Greater

  /**
   * The derived `PartialOrd`: variants compare in declaration order
   * (`Some` before `Infinity`), two `Some` compare by their depth.
   */
  function PartialCmp(a: Depth, b: Depth): Option<Ordering>
  {
    match (a, b)
    case (Some(x), Some(y)) => Option.Some(if x < y then Less else if x == y then Equal else Greater)
    case (Some(_), Infinity) => Option.Some(Less)
    case (Infinity, Some(_)) => Option.Some(Greater)
    case (Infinity, Infinity) => Option.Some(Equal)
  }

  /** `a < b` under the derived order. */
  predicate Lt(a: Depth, b: Depth) {
    PartialCmp(a, b) == Option.Some(Less)
  }

  /** The derived order compares finite depths numerically and puts Infinity above all of them. */
  lemma DepthOrder(a: Depth, b: Depth)
    ensures a.Some? && b.Some? ==> (Lt(a, b) <==> a.n < b.n)
    ensures a.Some? && b.Infinity? ==> Lt(a, b)
    ensures !Lt(Infinity, b)
  {
  }

  /** The derived order is total and agrees with equality: a strict total order. */
  lemma DepthOrderIsTotal(a: Depth, b: Depth, c: Depth)
    ensures PartialCmp(a, b).Some?
    ensures PartialCmp(a, b) == Option.Some(Equal) <==> a == b
    ensures Lt(a, b) <==> PartialCmp(b, a) == Option.Some(Greater)
    ensures !Lt(a, a)
    ensures Lt(a, b) && Lt(b, c) ==> Lt(a, c)
    ensures a == b || Lt(a, b) || Lt(b, a)
  {
  }

  /** The foreign cause inside `WebRequest`, kept opaque. */
  datatype WebCause = InvalidUtf8 | Transport(code: nat)

  /** quick_xml's `DeError`, kept opaque. */
  datatype DeError = DeError(code: nat)

  /** `Error`: transport failure, decode failure, or a non-2xx status. */
  datatype Error =
    | WebRequest(cause: WebCause)
    | Parsing(de: DeError)
    | ErrorStatus(status: u16, text: Option<string>)

  /** `Error::is_404`. */
  function Is404(e: Error): (r: bool)
    ensures r <==> e.ErrorStatus? && e.status == 404
    ensures e.WebRequest? || e.Parsing? ==> !r
  {
    match e
    case ErrorStatus(status, _) => status == 404
    case _ => false
  }

  /** The user-pass of RFC 7617: the username, a colon, then the password if any. */
  function Credentials(username: string, password: Option<string>): (s: string)
    ensures |s| > |username| && s[..|username|] == username && s[|username|] == ':'
    ensures password.None? ==> |s| == |username| + 1
    ensures password.Some? ==> s[|username| + 1..] == password.value
  {
    username + ":" + (match password case None => "" case Some(p) => p)
  }

  /** The value `basic_auth` produces: `Basic ` and the base 64 of the credentials' UTF-8. */
  function BasicAuthValue(username: string, password: Option<string>): seq<byte>
  {
    Utf8.Encode("Basic ") + Base64.Encode(Utf8.Encode(Credentials(username, password)))
  }

  /**
   * `basic_auth`: writes `Basic ` into a buffer, then streams the username, a
   * colon and the password (when there is one) through a base 64 encoder
   * over that buffer; dropping the encoder flushes it.
   */
  method BasicAuth(username: string, password: Option<string>) returns (buf: seq<byte>)
    ensures buf == BasicAuthValue(username, password)
  {
    buf := Utf8.Encode("Basic ");
    ghost var prefix := buf;
    var encoder := new Base64.EncoderWriter(buf);
    encoder.Write(Utf8.Encode(username + ":"));
    if password.Some? {
      encoder.Write(Utf8.Encode(password.value));
    }
    CredentialBytes(username, password);
    assert encoder.written == Utf8.Encode(Credentials(username, password));
    assert encoder.initial == prefix;
    buf := encoder.Finish();
    assert buf == prefix + Base64.Encode(Utf8.Encode(Credentials(username, password)));
  }

  /** The octets the encoder receives, write by write. */
  lemma CredentialBytes(username: string, password: Option<string>)
    ensures Utf8.Encode(Credentials(username, password)) ==
      [] + Utf8.Encode(username + ":") + (if password.Some? then Utf8.Encode(password.value) else [])
  {
    if password.Some? {
      Utf8.EncodeAppend(username + ":", password.value);
    } else {
      assert Credentials(username, password) == username + ":";
    }
  }

  /**
   * A server can take the credentials back out of the header value: after the
   * six octets of `Basic ` comes base 64 that decodes to the UTF-8 of the
   * user-pass, which decodes to the user-pass itself.
   */
  lemma BasicAuthCarriesCredentials(username: string, password: Option<string>)
    ensures var v := BasicAuthValue(username, password);
      && |v| >= 6
      && v[..6] == Utf8.Encode("Basic ")
      && Base64.Decode(v[6..]) == Option.Some(Utf8.Encode(Credentials(username, password)))
      && Utf8.Decode(Base64.Decode(v[6..]).value) == Option.Some(Credentials(username, password))
  {
    var v := BasicAuthValue(username, password);
    var user := Utf8.Encode(Credentials(username, password));
    Utf8.EncodeAscii("Basic ");
    assert v[6..] == Base64.Encode(user);
    Base64.DecodeEncode(user);
    Utf8.DecodeEncode(Credentials(username, password));
  }

  /** `Client`: a transport and the credentials to send with every request. */
  datatype Client<T> = Client(webClient: T, authentication: Auth)

  /** `Client::new`: no authentication; the transport is only stored. */
  function New<T>(webClient: T): (c: Client<T>)
    ensures c.webClient == webClient && c.authentication == Auth.None
  {
    Client(webClient, Auth.None)
  }

  /** `Client::authenticated`: the given credentials, stored unchanged. */
  function Authenticated<T>(webClient: T, authentication: Auth): (c: Client<T>)
    ensures c.webClient == webClient && c.authentication == authentication
  {
    Client(webClient, authentication)
  }
}
