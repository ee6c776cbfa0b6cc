/**
 * The requests of `Client` in src/lib.rs: `prop_find` (the PROPFIND request
 * of section 9.1 of RFC 4918 with the Depth header of its section 10.2),
 * `get`, `get_raw` and `put_raw`. Property names and namespace bindings are
 * the text their `Display` produces; quick_xml's `from_str` is a function
 * parameter.
 */
module PropFind {
  import opened Wrappers
  import Utf8
  import Decimal
  import Dav
  import WebClient
  import WebdavTypes

  type byte = Utf8.byte
  type Outcome<T> = WebClient.Outcome<T>

  /** A namespace binding: the prefix and the namespace name. */
  type Binding = (string, string)

  /** quick_xml's `from_str` for a multistatus document. */
  type Parse = string -> Result<WebdavTypes.MultiStatus, Dav.DeError>

  // ---------------------------------------------------------------------
  // The request body.

  const Head: string := "<?xml version=\"1.0\"?><d:propfind"
  const BindingOpen: string := " xmlns:"
  const PropOpen: string := "><d:prop>"
  const Tail: string := "</d:prop></d:propfind>"

  /** ` xmlns:N="S"`. */
  function BindingText(b: Binding): string
  {
    BindingOpen + b.0 + "=\"" + b.1 + "\""
  }

  /** `<F/>`. */
  function PropText(field: string): string
  {
    "<" + field + "/>"
  }

  /** The bindings' texts, in input order. */
  function Bindings(nameSpaces: seq<Binding>): string
  {
    if nameSpaces == [] then ""
    else Bindings(nameSpaces[..|nameSpaces| - 1]) + BindingText(nameSpaces[|nameSpaces| - 1])
  }

  /** The fields' empty elements, in input order. */
  function Props(fields: seq<string>): string
  {
    if fields == [] then ""
    else Props(fields[..|fields| - 1]) + PropText(fields[|fields| - 1])
  }

  /** The PROPFIND body `prop_find` writes. */
  function Body(fields: seq<string>, nameSpaces: seq<Binding>): string
  {
    Head + Bindings(nameSpaces) + PropOpen + Props(fields) + Tail
  }

  /**
   * The body as `prop_find` writes it: the XML declaration and the opening
   * `propfind` tag, one `xmlns` attribute per binding, then one empty
   * element per field inside `prop`, then the closing tags.
   */
  method BuildBody(fields: seq<string>, nameSpaces: seq<Binding>) returns (body: string)
    ensures body == Body(fields, nameSpaces)
  {
    body := "";
    body := body + Head;
    for i := 0 to |nameSpaces|
      invariant body == Head + Bindings(nameSpaces[..i])
    {
      assert nameSpaces[..i + 1][..i] == nameSpaces[..i];
      body := body + BindingText(nameSpaces[i]);
    }
    assert nameSpaces[..|nameSpaces|] == nameSpaces;
    body := body + PropOpen;
    ghost var before := body;
    for i := 0 to |fields|
      invariant body == before + Props(fields[..i])
    {
      assert fields[..i + 1][..i] == fields[..i];
      body := body + PropText(fields[i]);
    }
    assert fields[..|fields|] == fields;
    body := body + Tail;
  }

  /** The fields' texts of two lists follow each other: nothing is reordered or merged. */
  lemma {:induction false} PropsAppend(a: seq<string>, b: seq<string>)
    ensures Props(a + b) == Props(a) + Props(b)
    decreases |b|
  {
    if b == [] {
      assert a + b == a;
    } else {
      var b' := b[..|b| - 1];
      assert (a + b)[..|a + b| - 1] == a + b';
      PropsAppend(a, b');
    }
  }

  /** The same for the bindings. */
  lemma {:induction false} BindingsAppend(a: seq<Binding>, b: seq<Binding>)
    ensures Bindings(a + b) == Bindings(a) + Bindings(b)
    decreases |b|
  {
    if b == [] {
      assert a + b == a;
    } else {
      var b', last := b[..|b| - 1], b[|b| - 1];
      assert (a + b)[..|a + b| - 1] == a + b';
      assert (a + b)[|a + b| - 1] == last;
      BindingsAppend(a, b');
      calc {
        Bindings(a + b);
        Bindings(a + b') + BindingText(last);
        (Bindings(a) + Bindings(b')) + BindingText(last);
        Bindings(a) + (Bindings(b') + BindingText(last));
      }
    }
  }

  /** The first field's text comes first. */
  lemma PropsCons(field: string, rest: seq<string>)
    ensures Props([field] + rest) == PropText(field) + Props(rest)
  {
    PropsAppend([field], rest);
    assert [field][..0] == [];
  }

  /** The first binding's text comes first. */
  lemma BindingsCons(b: Binding, rest: seq<Binding>)
    ensures Bindings([b] + rest) == BindingText(b) + Bindings(rest)
  {
    BindingsAppend([b], rest);
    assert [b][..0] == [];
  }

  // ---------------------------------------------------------------------
  // Reading the body back.

  /** The first position at or after `from` holding `c`. */
  function IndexOf(s: string, c: char, from: nat): (r: Option<nat>)
    ensures r.Some? ==> from <= r.value < |s| && s[r.value] == c
    decreases |s| - from
  {
    if from >= |s| then Option.None
    else if s[from] == c then Option.Some(from)
    else IndexOf(s, c, from + 1)
  }

  /** IndexOf finds the first occurrence. */
  lemma {:induction false} IndexOfFirst(s: string, c: char, from: nat, k: nat)
    requires from <= k < |s| && s[k] == c
    requires forall j :: from <= j < k ==> s[j] != c
    ensures IndexOf(s, c, from) == Option.Some(k)
    decreases k - from
  {
    if from < k {
      IndexOfFirst(s, c, from + 1, k);
    }
  }

  /** Reads `<F/>` elements up to the end. */
  function ParseProps(s: string): Option<seq<string>>
    decreases |s|
  {
    if s == [] then Option.Some([])
    else if s[0] != '<' then Option.None
    else match IndexOf(s, '/', 1)
      case None => Option.None
      case Some(j) =>
        if j + 1 < |s| && s[j + 1] == '>' then
          match ParseProps(s[j + 2..])
          case None => Option.None
          case Some(fields) => Option.Some([s[1..j]] + fields)
        else Option.None
  }

  /** Adds a binding in front of a parse result. */
  function PrependBinding(b: Binding, r: Option<(seq<Binding>, string)>): Option<(seq<Binding>, string)>
  {
    match r
    case None => Option.None
    case Some((nameSpaces, rest)) => Option.Some(([b] + nameSpaces, rest))
  }

  /** Reads ` xmlns:N="S"` attributes while there are any; returns them and what follows. */
  function ParseBindings(s: string): Option<(seq<Binding>, string)>
    decreases |s|
  {
    if |s| >= |BindingOpen| && s[..|BindingOpen|] == BindingOpen then
      match IndexOf(s, '=', |BindingOpen|)
      case None => Option.None
      case Some(j) =>
        if j + 1 < |s| && s[j + 1] == '"' then
          match IndexOf(s, '"', j + 2)
          case None => Option.None
          case Some(q) => PrependBinding((s[|BindingOpen|..j], s[j + 2..q]), ParseBindings(s[q + 1..]))
        else Option.None
    else Option.Some(([], s))
  }

  /** Reads a PROPFIND body back into its bindings and fields. */
  function ParseBody(s: string): Option<(seq<Binding>, seq<string>)>
  {
    if |s| >= |Head| && s[..|Head|] == Head then
      match ParseBindings(s[|Head|..])
      case None => Option.None
      case Some((nameSpaces, rest)) =>
        if |rest| >= |PropOpen| + |Tail| && rest[..|PropOpen|] == PropOpen && rest[|rest| - |Tail|..] == Tail then
          match ParseProps(rest[|PropOpen|..|rest| - |Tail|])
          case None => Option.None
          case Some(fields) => Option.Some((nameSpaces, fields))
        else Option.None
    else Option.None
  }

  /** A field name the body can carry unambiguously: no `/`. */
  predicate PlainField(field: string) {
    forall i :: 0 <= i < |field| ==> field[i] != '/'
  }

  /** A binding the body can carry unambiguously: no `=` in the prefix, no `"` in the namespace. */
  predicate PlainBinding(b: Binding) {
    (forall i :: 0 <= i < |b.0| ==> b.0[i] != '=') && (forall i :: 0 <= i < |b.1| ==> b.1[i] != '"')
  }

  /** One element is read back, and the reading goes on after it. */
  lemma ParsePropStep(field: string, rest: string)
    requires PlainField(field)
    ensures ParseProps(PropText(field) + rest) ==
      match ParseProps(rest) case None => Option.None case Some(fields) => Option.Some([field] + fields)
  {
    var s := PropText(field) + rest;
    var j := |field| + 1;
    assert s[0] == '<';
    forall i | 1 <= i < j ensures s[i] != '/' {
      assert s[i] == field[i - 1];
    }
    IndexOfFirst(s, '/', 1, j);
    assert s[1..j] == field;
    assert s[j + 2..] == rest;
  }

  /** The fields' elements read back as the fields. */
  lemma {:induction false} ParsePropsOfProps(fields: seq<string>)
    requires forall i :: 0 <= i < |fields| ==> PlainField(fields[i])
    ensures ParseProps(Props(fields)) == Option.Some(fields)
    decreases |fields|
  {
    if fields != [] {
      var rest := fields[1..];
      assert fields == [fields[0]] + rest;
      PropsCons(fields[0], rest);
      ParsePropStep(fields[0], Props(rest));
      ParsePropsOfProps(rest);
    }
  }

  /** Where the prefix, the namespace and the rest sit in an attribute's text. */
  lemma BindingTextLayout(b: Binding, rest: string)
    ensures var s, j := BindingText(b) + rest, |BindingOpen| + |b.0|;
      && |s| > j + 2 + |b.1|
      && s[..|BindingOpen|] == BindingOpen && s[|BindingOpen|..j] == b.0
      && s[j] == '=' && s[j + 1] == '"'
      && s[j + 2..j + 2 + |b.1|] == b.1 && s[j + 2 + |b.1|] == '"'
      && s[j + 3 + |b.1|..] == rest
  {
    var s := BindingText(b) + rest;
    var j := |BindingOpen| + |b.0|;
    assert s == BindingOpen + b.0 + ("=\"" + b.1 + "\"" + rest);
    assert s[j..] == "=\"" + b.1 + "\"" + rest;
  }

  /** Once the `=` and the closing `"` are found, one binding is read and the reading goes on after it. */
  lemma ParseBindingsAt(s: string, j: nat, q: nat)
    requires |s| >= |BindingOpen| && s[..|BindingOpen|] == BindingOpen
    requires IndexOf(s, '=', |BindingOpen|) == Option.Some(j) && j + 1 < |s| && s[j + 1] == '"'
    requires IndexOf(s, '"', j + 2) == Option.Some(q)
    ensures ParseBindings(s) == PrependBinding((s[|BindingOpen|..j], s[j + 2..q]), ParseBindings(s[q + 1..]))
  {
    var tail := ParseBindings(s[q + 1..]);
    assert ParseBindings(s) == PrependBinding((s[|BindingOpen|..j], s[j + 2..q]), tail);
  }

  /** One attribute is read back, and the reading goes on after it. */
  lemma ParseBindingStep(b: Binding, rest: string)
    requires PlainBinding(b)
    ensures ParseBindings(BindingText(b) + rest) == PrependBinding(b, ParseBindings(rest))
  {
    var s := BindingText(b) + rest;
    var (name, space) := b;
    var j := |BindingOpen| + |name|;
    var q := j + 2 + |space|;
    BindingTextLayout(b, rest);
    forall i | |BindingOpen| <= i < j ensures s[i] != '=' {
      assert s[i] == s[|BindingOpen|..j][i - |BindingOpen|];
    }
    IndexOfFirst(s, '=', |BindingOpen|, j);
    forall i | j + 2 <= i < q ensures s[i] != '"' {
      assert s[i] == s[j + 2..q][i - j - 2];
    }
    IndexOfFirst(s, '"', j + 2, q);
    ParseBindingsAt(s, j, q);
  }

  /** The attributes read back as the bindings, leaving what follows them. */
  lemma {:induction false} ParseBindingsOfBindings(nameSpaces: seq<Binding>, rest: string)
    requires forall i :: 0 <= i < |nameSpaces| ==> PlainBinding(nameSpaces[i])
    requires rest != [] && rest[0] == '>'
    ensures ParseBindings(Bindings(nameSpaces) + rest) == Option.Some((nameSpaces, rest))
    decreases |nameSpaces|
  {
    if nameSpaces == [] {
      assert Bindings(nameSpaces) + rest == rest;
      assert rest[0] != BindingOpen[0];
    } else {
      var tail := nameSpaces[1..];
      assert nameSpaces == [nameSpaces[0]] + tail;
      BindingsCons(nameSpaces[0], tail);
      assert Bindings(nameSpaces) + rest == BindingText(nameSpaces[0]) + (Bindings(tail) + rest);
      ParseBindingStep(nameSpaces[0], Bindings(tail) + rest);
      ParseBindingsOfBindings(tail, rest);
    }
  }

  /**
   * The body carries exactly the bindings and the fields, in input order,
   * none dropped, merged or reordered: reading it back gives them again.
   */
  lemma BodyRoundTrip(fields: seq<string>, nameSpaces: seq<Binding>)
    requires forall i :: 0 <= i < |fields| ==> PlainField(fields[i])
    requires forall i :: 0 <= i < |nameSpaces| ==> PlainBinding(nameSpaces[i])
    ensures ParseBody(Body(fields, nameSpaces)) == Option.Some((nameSpaces, fields))
  {
    var s := Body(fields, nameSpaces);
    var rest := PropOpen + Props(fields) + Tail;
    assert s == Head + (Bindings(nameSpaces) + rest);
    assert s[..|Head|] == Head && s[|Head|..] == Bindings(nameSpaces) + rest;
    ParseBindingsOfBindings(nameSpaces, rest);
    assert rest[..|PropOpen|] == PropOpen;
    assert rest[|rest| - |Tail|..] == Tail;
    assert rest[|PropOpen|..|rest| - |Tail|] == Props(fields);
    ParsePropsOfProps(fields);
  }

  /** Different requests have different bodies. */
  lemma BodyInjective(fields: seq<string>, nameSpaces: seq<Binding>, fields': seq<string>, nameSpaces': seq<Binding>)
    requires forall i :: 0 <= i < |fields| ==> PlainField(fields[i])
    requires forall i :: 0 <= i < |nameSpaces| ==> PlainBinding(nameSpaces[i])
    requires forall i :: 0 <= i < |fields'| ==> PlainField(fields'[i])
    requires forall i :: 0 <= i < |nameSpaces'| ==> PlainBinding(nameSpaces'[i])
    requires Body(fields, nameSpaces) == Body(fields', nameSpaces')
    ensures fields == fields' && nameSpaces == nameSpaces'
  {
    BodyRoundTrip(fields, nameSpaces);
    BodyRoundTrip(fields', nameSpaces');
  }

  /**
   * Names are written without escaping, so without `PlainField` two requests
   * can share a body: a field `A/><B` is written as the two fields `A`, `B`.
   */
  lemma FieldSlashMerges(a: string, b: string, nameSpaces: seq<Binding>)
    ensures [a + "/><" + b] != [a, b]
    ensures Body([a + "/><" + b], nameSpaces) == Body([a, b], nameSpaces)
  {
    assert Props([a + "/><" + b]) == PropText(a + "/><" + b);
    assert [a, b][..1] == [a];
    assert Props([a, b]) == PropText(a) + PropText(b);
    assert PropText(a + "/><" + b) == PropText(a) + PropText(b);
  }

  /**
   * Likewise without `PlainBinding`: a namespace holding `S" xmlns:Q="T` is
   * written as the two bindings `(P, S)`, `(Q, T)`.
   */
  lemma BindingQuoteMerges(p: string, s: string, q: string, t: string, fields: seq<string>)
    ensures [(p, s + "\"" + BindingOpen + q + "=\"" + t)] != [(p, s), (q, t)]
    ensures Body(fields, [(p, s + "\"" + BindingOpen + q + "=\"" + t)]) == Body(fields, [(p, s), (q, t)])
  {
    var merged := (p, s + "\"" + BindingOpen + q + "=\"" + t);
    assert Bindings([merged]) == BindingText(merged);
    assert [(p, s), (q, t)][..1] == [(p, s)];
    assert Bindings([(p, s), (q, t)]) == BindingText((p, s)) + BindingText((q, t));
    assert BindingText(merged) == BindingText((p, s)) + BindingText((q, t));
  }

  // ---------------------------------------------------------------------
  // The Depth header.

  /** The header name `depth`. */
  function DepthKey(): seq<byte>
  {
    Utf8.Encode("depth")
  }

  /** The header value: the decimal digits of a finite depth, or `infinity`. */
  function DepthHeader(depth: Dav.Depth): seq<byte>
  {
    match depth
    case Some(n) => Utf8.Encode(Decimal.ToString(n))
    case Infinity => Utf8.Encode("infinity")
  }

  /**
   * The value is text a server reads back: the digits of a finite depth
   * parse as that depth, and Infinity is the word `infinity`.
   */
  lemma DepthHeaderSpec(depth: Dav.Depth)
    ensures var text := Utf8.Decode(DepthHeader(depth)); text.Some?
    ensures depth.Some? ==> var text := Utf8.Decode(DepthHeader(depth)).value;
      Decimal.AllDigits(text) && Decimal.ParseU32(text) == Ok(depth.n)
    ensures depth.Infinity? ==> Utf8.Decode(DepthHeader(depth)) == Option.Some("infinity")
  {
    match depth {
      case Some(n) =>
        Utf8.DecodeEncode(Decimal.ToString(n));
        Decimal.ParseToString(n);
      case Infinity =>
        Utf8.DecodeEncode("infinity");
    }
  }

  /** Different depths give different header values. */
  lemma DepthHeaderInjective(a: Dav.Depth, b: Dav.Depth)
    requires DepthHeader(a) == DepthHeader(b)
    ensures a == b
  {
    DepthHeaderSpec(a);
    DepthHeaderSpec(b);
    if a.Some? && b.Some? {
      Decimal.ToStringInjective(a.n, b.n);
    }
  }

  // ---------------------------------------------------------------------
  // The requests and their results.

  /** The PROPFIND request: the client's request with the Depth header after any Authorization. */
  function PropFindRequest<T>(open: WebClient.Open<T>, client: Dav.Client<T>, url: string, depth: Dav.Depth): WebClient.Request
  {
    WebClient.WithHeader(WebClient.ClientRequest(open, client, "PROPFIND", url), DepthKey(), DepthHeader(depth))
  }

  /** quick_xml's result, its error wrapped as `Error::Parsing`. */
  function ParseMultiStatus(parse: Parse, text: string): Outcome<WebdavTypes.MultiStatus>
  {
    match parse(text)
    case Ok(m) => Ok(m)
    case Err(d) => Err(Dav.Parsing(d))
  }

  /** What `prop_find` makes of the transport's outcome: status check, text, then parse. */
  function PropFindOutcome(sent: Outcome<WebClient.Response>, parse: Parse): Outcome<WebdavTypes.MultiStatus>
  {
    var response := WebClient.FlatAndThen(sent, WebClient.ErrorOnStatusCode);
    var text := WebClient.FlatAndThen(response, WebClient.Text);
    WebClient.AndThen(text, (s: string) => ParseMultiStatus(parse, s))
  }

  /** `prop_find`'s result: the body is always sent, as UTF-8. */
  function PropFindResult<T>(open: WebClient.Open<T>, send: WebClient.Send, parse: Parse, client: Dav.Client<T>,
                             url: string, depth: Dav.Depth, fields: seq<string>, nameSpaces: seq<Binding>)
    : Outcome<WebdavTypes.MultiStatus>
  {
    PropFindOutcome(send(PropFindRequest(open, client, url, depth), Option.Some(Utf8.Encode(Body(fields, nameSpaces)))), parse)
  }

  /** `Client::prop_find` over the `Blocking` strategy. */
  method PropFindCall<T>(open: WebClient.Open<T>, send: WebClient.Send, parse: Parse, client: Dav.Client<T>,
                         url: string, depth: Dav.Depth, fields: seq<string>, nameSpaces: seq<Binding>)
    returns (r: Outcome<WebdavTypes.MultiStatus>)
    ensures r == PropFindResult(open, send, parse, client, url, depth, fields, nameSpaces)
  {
    var body := BuildBody(fields, nameSpaces);
    var request := WebClient.WithHeader(WebClient.ClientRequest(open, client, "PROPFIND", url), DepthKey(), DepthHeader(depth));
    var response := WebClient.SendOk(send, request, Option.Some(Utf8.Encode(body)));
    var text := WebClient.FlatAndThen(response, WebClient.Text);
    r := WebClient.AndThen(text, (s: string) => ParseMultiStatus(parse, s));
  }

  /**
   * Errors before parsing come back unchanged and the parser is never
   * consulted: a transport error as is, a non-2xx status as ErrorStatus, a
   * body that is not UTF-8 as a web request error.
   */
  lemma PropFindErrors(sent: Outcome<WebClient.Response>, parse: Parse, parse': Parse)
    ensures sent.Err? ==> PropFindOutcome(sent, parse) == Err(sent.error)
    ensures sent.Ok? && !WebClient.IsSuccess(sent.value.status) ==>
      PropFindOutcome(sent, parse) ==
        Err(Dav.ErrorStatus(sent.value.status, ToOption(WebClient.Text(sent.value))))
    ensures sent.Ok? && WebClient.IsSuccess(sent.value.status) && WebClient.Text(sent.value).Err? ==>
      PropFindOutcome(sent, parse) == Err(WebClient.Text(sent.value).error)
    ensures sent.Err? || !WebClient.IsSuccess(sent.value.status) || WebClient.Text(sent.value).Err? ==>
      PropFindOutcome(sent, parse) == PropFindOutcome(sent, parse')
  {
  }

  /**
   * A 2xx response whose body is text is parsed: the result is the parse's,
   * a parse failure becoming `Parsing`.
   */
  lemma PropFindParses(sent: Outcome<WebClient.Response>, parse: Parse)
    requires sent.Ok? && WebClient.IsSuccess(sent.value.status) && WebClient.Text(sent.value).Ok?
    ensures var s := WebClient.Text(sent.value).value;
      && (PropFindOutcome(sent, parse).Ok? <==> parse(s).Ok?)
      && (parse(s).Ok? ==> PropFindOutcome(sent, parse) == Ok(parse(s).value))
      && (parse(s).Err? ==> PropFindOutcome(sent, parse) == Err(Dav.Parsing(parse(s).error)))
  {
  }

  /** Neither the transport nor the read of the body reported a `Parsing` error. */
  predicate NoTransportParsing(sent: Outcome<WebClient.Response>) {
    && (sent.Err? ==> !sent.error.Parsing?)
    && (sent.Ok? && sent.value.body.Err? ==> !sent.value.body.error.Parsing?)
  }

  /** Only the parser produces a `Parsing` error, unless the transport itself reported one. */
  lemma ParsingOnlyFromParser(sent: Outcome<WebClient.Response>, parse: Parse)
    requires NoTransportParsing(sent)
    requires PropFindOutcome(sent, parse).Err? && PropFindOutcome(sent, parse).error.Parsing?
    ensures sent.Ok? && WebClient.IsSuccess(sent.value.status) && WebClient.Text(sent.value).Ok?
    ensures parse(WebClient.Text(sent.value).value) == Err(PropFindOutcome(sent, parse).error.de)
  {
    if sent.Ok? && WebClient.IsSuccess(sent.value.status) {
      WebClient.TextSpec(sent.value);
    }
  }

  /** `get_raw`: a GET without a body, the status checked. */
  function GetRaw<T>(open: WebClient.Open<T>, send: WebClient.Send, client: Dav.Client<T>, url: string)
    : Outcome<WebClient.Response>
  {
    WebClient.SendOk(send, WebClient.ClientRequest(open, client, "GET", url), Option.None)
  }

  /** `get`: `get_raw`, then the body's octets. */
  function Get<T>(open: WebClient.Open<T>, send: WebClient.Send, client: Dav.Client<T>, url: string)
    : Outcome<seq<byte>>
  {
    WebClient.FlatAndThen(GetRaw(open, send, client, url), WebClient.Bytes)
  }

  /** `put_raw`: the PUT request, left to the caller to send. */
  function PutRaw<T>(open: WebClient.Open<T>, client: Dav.Client<T>, url: string): WebClient.Request
  {
    WebClient.ClientRequest(open, client, "PUT", url)
  }

  /**
   * `get` fails exactly as `get_raw` does, without reading a body; when
   * `get_raw` succeeds, `get` is the read of that response's body, and
   * octets only ever come from a 2xx response.
   */
  lemma GetSpec<T>(open: WebClient.Open<T>, send: WebClient.Send, client: Dav.Client<T>, url: string)
    ensures var raw := GetRaw(open, send, client, url); var got := Get(open, send, client, url);
      && (raw.Err? ==> got == Err(raw.error))
      && (raw.Ok? ==> got == raw.value.body)
      && (got.Ok? ==> raw.Ok? && WebClient.IsSuccess(raw.value.status))
  {
    WebClient.SendOkSpec(send, WebClient.ClientRequest(open, client, "GET", url), Option.None);
  }

  /** A transport that starts every request with no headers. */
  function PlainOpen<T>(webClient: T, httpMethod: string, url: string): WebClient.Request
  {
    WebClient.Request(httpMethod, url, [])
  }

  /** The headers a client adds to every request. */
  function AuthHeaders(auth: Dav.Auth): seq<WebClient.Header>
  {
    match auth
    case None => []
    case Basic(username, password) => [(WebClient.AuthorizationKey(), Dav.BasicAuthValue(username, password))]
  }

  /**
   * Over a transport that adds nothing of its own: PROPFIND carries the
   * url, the client's Authorization header if any, then Depth; GET and PUT
   * carry the url and the Authorization header if any.
   */
  lemma RequestsOverPlainTransport<T>(client: Dav.Client<T>, url: string, depth: Dav.Depth)
    ensures PropFindRequest(PlainOpen, client, url, depth) ==
      WebClient.Request("PROPFIND", url, AuthHeaders(client.authentication) + [(DepthKey(), DepthHeader(depth))])
    ensures PutRaw(PlainOpen, client, url) == WebClient.Request("PUT", url, AuthHeaders(client.authentication))
    ensures WebClient.ClientRequest(PlainOpen, client, "GET", url) ==
      WebClient.Request("GET", url, AuthHeaders(client.authentication))
  {
    WebClient.ClientRequestSpec(PlainOpen, client, "PROPFIND", url);
    WebClient.ClientRequestSpec(PlainOpen, client, "PUT", url);
    WebClient.ClientRequestSpec(PlainOpen, client, "GET", url);
  }
}
