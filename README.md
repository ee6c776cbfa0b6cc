# webdav-client in Dafny

A model of the WebDAV client library `webdav_client` and of its command line
tool. The model covers these parts:

- **The request side of `Client`** (src/lib.rs):
  - the PROPFIND body and its Depth header (sections 9.1 and 10.2 of RFC 4918);
  - the Basic `Authorization` value (section 2 of RFC 7617), with the base 64
    of section 4 of RFC 4648 and the UTF-8 of RFC 3629 written out;
  - `get`, `get_raw` and `put_raw`;
  - the error type with `is_404`, and the derived order on `Depth`.
- **The `Blocking` effect strategy and the transport-agnostic defaults**
  (src/web_client.rs): `send_ok`, `text` and `error_on_status_code`, plus
  the `Client<T>` implementation that adds the Authorization header.
- **The `PropValue` visitor** (src/webdav_types.rs): it groups the entries
  of an element by key, then picks `Empty`, `Text` or `Xml`. Also
  `Status::is_successful`.
- **The tool's string helpers** (src/main.rs): joining host and path,
  `parse_depth`, `parse_list_fields`, `ListField::to_xml` with its namespace
  table, `Password`'s masking `Debug`, and the href shortening of the `path`
  column.

Two external pieces are parameters of the model:

- The transport is a function from a request (method, url, headers) and an
  optional body to a response or an error. A response is a status and the
  outcome of reading its body.
- quick_xml is a function from text to a `MultiStatus` or a parse error. The
  `PropValue` visitor reads an abstract tree of events: a string, or a map
  of entries in document order.

Modules, one file each:

- `Wrappers`: `Option` and `Result`.
- `Utf8`, `Base64` and `Decimal`: the encodings the source gets from std and
  the base64 crate. `Base64` includes the streaming `EncoderWriter` as a class.
- `Dav`: src/lib.rs types.
- `WebClient`: src/web_client.rs.
- `PropFind`: the `Client` requests of src/lib.rs.
- `WebdavTypes`: src/webdav_types.rs.
- `Cli`: src/main.rs.

## Model

| member | source | states |
|---|---|---|
| Utf8.EncodeChar | src/lib.rs:75-77 | a character's UTF-8 form is 1 to 4 octets, exactly one iff the character is ASCII |
| Utf8.EncodeCharShape | src/lib.rs:75-77 | the octet count is 1, 2, 3 or 4 by the scalar ranges below 0x80, 0x800, 0x10000 and above; every later octet is a continuation octet in 0x80-0xBF, and a multi-octet lead is not |
| Utf8.DecodeEncode | src/web_client.rs:72 | `String::from_utf8` gives back every string from its UTF-8 octets |
| Utf8.EncodeDecode | src/web_client.rs:72 | whenever decoding succeeds, the octets are exactly the UTF-8 of the result, so decoding is injective |
| Utf8.EncodeAppend | src/lib.rs:75-77 | the UTF-8 of a concatenation is the concatenation of the UTF-8 forms, as successive `write!` calls produce it |
| Utf8.EncodeLength | src/main.rs:246 | a string takes at least one octet per character, exactly one each iff it is ASCII |
| Base64.SymbolValueOfSymbol | src/lib.rs:69 | each value 0-63 has one symbol of the RFC 4648 alphabet, and the symbol reads back as the value |
| Base64.DecodeEncode | src/lib.rs:72-80 | decoding the standard padded encoding gives back the octets, for every octet string |
| Base64.EncodeLength | src/lib.rs:72-80 | the encoding has 4 symbols per started group of 3 octets |
| Base64.EncodeAppend | src/lib.rs:74-78 | the whole groups of a prefix encode independently of what follows them |
| Base64.EncoderWriter.Write | src/lib.rs:75-77 | a write appends its octets to the input; the buffer keeps its initial contents plus the encoding of every whole group so far, and fewer than 3 octets wait |
| Base64.EncoderWriter.Finish | src/lib.rs:73-79 | dropping the encoder leaves the initial buffer followed by the padded encoding of everything written |
| Decimal.ToString | src/lib.rs:127 | `to_string` of a number is its decimal digits, with no leading zero except for 0 itself |
| Decimal.ValueOfToString | src/lib.rs:127 | the digits of `to_string(n)` are worth n |
| Decimal.ToStringInjective | src/lib.rs:127 | different numbers have different decimal texts |
| Decimal.ParseU32Spec | src/main.rs:602 | `u32::from_str` accepts an optional `+` and then only digits, with value below 2^32. `Empty` is reported exactly for the empty text. `InvalidDigit` is reported for a lone `+`, and for a non-digit reached while the digits before it still fit. `PosOverflow` is reported whenever the leading digits already exceed U32Max, whatever follows them (so `99999999999x` is an overflow, not an invalid digit) |
| Decimal.ParseToString | src/main.rs:602 | parsing the decimal text of any `u32` gives it back |
| Dav.DepthOrder | src/lib.rs:29-36 | under the derived order, `Some(a) < Some(b)` iff a < b, every `Some` is below `Infinity`, and nothing is above `Infinity` |
| Dav.DepthOrderIsTotal | src/lib.rs:29-36 | the derived `partial_cmp` is defined for all pairs, and is a strict total order consistent with equality |
| Dav.Is404 | src/lib.rs:57-60 | `is_404` holds iff the error is `ErrorStatus` with status 404; it never holds for `WebRequest` or `Parsing` |
| Dav.Credentials | src/lib.rs:75-78 | the user-pass is the username, a colon even without a password, then the password if any |
| Dav.BasicAuth | src/lib.rs:66-81 | the buffer is `Basic ` followed by the base 64 of the UTF-8 of `username:password` |
| Dav.BasicAuthCarriesCredentials | src/lib.rs:66-81 | a server gets the username and password back from the header value: 6 octets of `Basic `, then base 64 that decodes to the user-pass |
| Dav.New | src/lib.rs:90-95 | `new` stores the transport untouched and no authentication |
| Dav.Authenticated | src/lib.rs:97-102 | `authenticated` stores the transport and the given authentication unchanged |
| WebClient.BlockingLaws | src/web_client.rs:148-162 | `ready` is the identity, `map(ready(x), f)` is `f(x)`, and `flat_map` is `map` |
| WebClient.AndThen | src/web_client.rs:164-166 | an `Err` is returned as is whatever the continuation; `Ok(v)` gives `fun(v)` |
| WebClient.FlatAndThen | src/web_client.rs:168-170 | the same as `and_then` |
| WebClient.AndThenLaws | src/web_client.rs:164-170 | `and_then` obeys both unit laws and associativity, and an `Err` skips any continuation |
| WebClient.WithHeader | src/web_client.rs:49 | `header` keeps method and url and appends exactly one header after the others |
| WebClient.TextSpec | src/web_client.rs:70-74 | a `bytes` error comes back as is; otherwise `text` succeeds iff the body is UTF-8, fails with a web request error if not, and a success has exactly the body as its UTF-8 |
| WebClient.TextOfEncoded | src/web_client.rs:70-74 | a body holding the UTF-8 of a string reads as that string |
| WebClient.ErrorOnStatusCode | src/web_client.rs:76-88 | the response comes back untouched iff 200 <= status < 300; otherwise the error is `ErrorStatus` with that status and the body's text if it can be read |
| WebClient.StatusBoundaries | src/web_client.rs:78 | 199 and 300 are errors, 200 and 299 are not, and a 404 gives an error for which `is_404` holds |
| WebClient.ErrorStatusText | src/web_client.rs:81-86 | a non-2xx response with a UTF-8 body carries exactly that text |
| WebClient.SendOkSpec | src/web_client.rs:57-63 | a transport error is returned as is; a success is the transport's own response and has a 2xx status; any other status is `ErrorStatus` |
| WebClient.ClientRequestSpec | src/web_client.rs:96-104 | method and url reach the transport as given; with Basic the request gets exactly one more header, `authorization`, set to `basic_auth`; with no authentication the transport's request is returned unchanged |
| WebClient.AuthorizationCarriesCredentials | src/web_client.rs:96-104 | the last header of an authenticated request is `authorization`, and its value decodes back to the client's credentials |
| WebdavTypes.ContainsSpec | src/webdav_types.rs:32 | `contains` holds iff the needle occurs at some position of the text |
| WebdavTypes.IsSuccessfulSpec | src/webdav_types.rs:31-33 | a status is successful iff its line has a space followed by `2` somewhere |
| WebdavTypes.SuccessfulAround | src/webdav_types.rs:31-33 | any line with ` 2` in it is successful, whatever surrounds it |
| WebdavTypes.SuccessExamples | src/webdav_types.rs:31-33 | `HTTP/1.1 200 OK` and `HTTP/1.1 207 Multi-Status` are successful |
| WebdavTypes.NotFoundExample | src/webdav_types.rs:31-33 | `HTTP/1.1 404 Not Found` is not successful |
| WebdavTypes.Group | src/webdav_types.rs:65-68 | the grouping map holds only non-empty lists, and groups of well-formed values are well formed |
| WebdavTypes.GroupSpec | src/webdav_types.rs:65-68 | the map's keys are exactly the entry keys, and each list holds the values of that key in arrival order, none lost or overwritten |
| WebdavTypes.Finish | src/webdav_types.rs:69-75 | no entries gives `Empty`; a `$text` key gives the last value under it; otherwise `Xml` of the whole map |
| WebdavTypes.Decode | src/webdav_types.rs:59-77 | every decoded value is well formed: an `Xml` never has a `$text` key or an empty list |
| WebdavTypes.DecodeEntries | src/webdav_types.rs:66 | the decoded entries keep their number, order and keys, and each value is well formed |
| WebdavTypes.DecodeEntriesErrorPersists | src/webdav_types.rs:66 | the first entry that fails to decode makes the whole element fail, whatever follows |
| WebdavTypes.DecodeEntriesValues | src/webdav_types.rs:66 | each decoded entry value is what its own event decodes to |
| WebdavTypes.StringIsText | src/webdav_types.rs:61-63 | a bare string decodes to `Text` of that string, unchanged |
| WebdavTypes.EmptyElement | src/webdav_types.rs:69-70 | an element with no entries decodes to `Empty` |
| WebdavTypes.ElementSpec | src/webdav_types.rs:64-76 | if the entries decode, the element is `Empty` when there are none, otherwise the last `$text` value when that key occurs; otherwise `Xml` whose keys are exactly the entry keys, without `$text`, and whose lists are the values in order |
| WebdavTypes.LastTextWins | src/webdav_types.rs:71-72 | an element whose last entry is `$text` text decodes to that text, whatever entries precede it |
| WebdavTypes.TextExample | src/webdav_types.rs:71-72 | with two `$text` entries and another key between them, the other key is dropped and the last text wins |
| WebdavTypes.GroupExample | src/webdav_types.rs:65-74 | two entries under one key and one under another decode to `Xml` with an ordered two-element list and a one-element list |
| WebdavTypes.Deserialize | src/webdav_types.rs:54-78 | the visitor returns what the decoding specification gives, for strings and maps |
| WebdavTypes.VisitMap | src/webdav_types.rs:64-76 | the `while let` loop with its mutable map and the `remove`/`pop` of `$text` computes the specified result, stopping at the first failing entry |
| PropFind.BuildBody | src/lib.rs:113-122 | the successive writes build the declaration, one `xmlns` attribute per binding in order, then one empty element per field in order, then the closing tags |
| PropFind.PropsAppend | src/lib.rs:119-121 | the elements of two field lists follow each other in the body |
| PropFind.BindingsAppend | src/lib.rs:115-117 | the attributes of two binding lists follow each other in the body |
| PropFind.BodyRoundTrip | src/lib.rs:113-122 | when no field contains `/`, no binding prefix contains `=` and no namespace contains `"`, the body can be read back into exactly its bindings and fields, in input order, none reordered, merged or dropped |
| PropFind.BodyInjective | src/lib.rs:113-122 | under the same conditions (fields without `/`, prefixes without `=`, namespaces without `"`), different binding or field lists give different bodies |
| PropFind.FieldSlashMerges | src/lib.rs:119-121 | the conditions are needed: names are written unescaped, so the one field `A/><B` gives the same body as the two fields `A`, `B` |
| PropFind.BindingQuoteMerges | src/lib.rs:115-117 | likewise the one binding `(P, S" xmlns:Q="T)` gives the same body as the two bindings `(P, S)`, `(Q, T)` |
| PropFind.DepthHeaderSpec | src/lib.rs:126-129 | the Depth value of `Some(n)` is n's decimal digits and parses back to n; that of `Infinity` is `infinity` |
| PropFind.DepthHeaderInjective | src/lib.rs:126-129 | different depths give different header values |
| PropFind.PropFindCall | src/lib.rs:106-135 | `prop_find` sends the PROPFIND request with its Depth header after any Authorization, always with a body, and chains the status check, `text` and the parse |
| PropFind.PropFindErrors | src/lib.rs:130-134 | a transport error, a non-2xx status (as `ErrorStatus`) and a body that is not text come back unchanged, and the parser is not consulted |
| PropFind.PropFindParses | src/lib.rs:132-134 | on a 2xx text body, the result is the parser's, a parse failure becoming `Parsing` |
| PropFind.ParsingOnlyFromParser | src/lib.rs:130-134 | unless the transport itself reported one, a `Parsing` error comes from the parser, on a 2xx text body |
| PropFind.GetSpec | src/lib.rs:137-143 | `get` fails as `get_raw` does, without reading a body; a success is the body of a 2xx response |
| PropFind.RequestsOverPlainTransport | src/lib.rs:124-130 | over a transport that adds no headers: PROPFIND carries Authorization if any and then Depth; GET and PUT carry only the Authorization if any |
| Cli.NewClient | src/main.rs:43-57 | the tool's client uses Basic iff a login is given, with the login and the password if any; without a login the password is dropped |
| Cli.JoinPathSpec | src/main.rs:59-67 | the url starts with the host; the seam always has a slash, exactly one when the host ends with one; the rest, with leading slashes removed, is the path with leading slashes removed; when the host has no trailing slash the rest is exactly the path, with a `/` put in front unless it starts with one, so the url is fully determined |
| Cli.ParseDepthInfinity | src/main.rs:598-600 | three or more characters that, lower-cased, begin `infinity` give `Infinity` |
| Cli.ParseDepthNumber | src/main.rs:601-602 | any other text gives `Some` of its `u32` value, or the parse error |
| Cli.ParseDepthOfHeader | src/main.rs:598-604 | the option reads back every Depth header value the library sends |
| Cli.ParseDepthInfinityExamples | src/main.rs:598-600 | `inf` and `INFINITY` give `Infinity` |
| Cli.ParseDepthTooShort | src/main.rs:599-602 | `in` is too short for Infinity and is an invalid number |
| Cli.ParseDepthBadDigit | src/main.rs:602 | `12x` is an invalid number |
| Cli.FromNameSpec | src/main.rs:344-373 | a predefined field is chosen exactly when the text equals its kebab-case name ignoring ASCII case |
| Cli.ParseFieldName | src/main.rs:382-383 | every predefined field parses from its name, in lower and in upper case |
| Cli.ParseBracedField | src/main.rs:385-390 | `{uri}name` gives `Other` with that namespace and name, split at the last `}` |
| Cli.ParseUnclosedBrace | src/main.rs:391-393 | a leading `{` with no `}` is an error |
| Cli.ParsePlainField | src/main.rs:394-399 | other unrecognised text is `Other` with no namespace and the text as name |
| Cli.FieldNamesPlain | src/main.rs:405-433 | a field without a namespace leaves the table alone; the path columns ask for no name, every other field for one or two, and a bare `Other` for its own name |
| Cli.FieldNamesNamespace | src/main.rs:434-441 | a namespace already seen keeps its prefix and the table stays as it was. A new one gets `webdav-client-ns` plus the table's size, and is the only entry added. The name asked for is the corrected `prefix:<name>`; see Findings |
| Cli.NsPrefixInjective | src/main.rs:439 | different counts give different prefixes |
| Cli.AllocateKeepsDistinct | src/main.rs:436-439 | allocating the next prefix keeps every prefix issued by count and no two namespaces sharing one |
| Cli.FieldNamesKeepAllocated | src/main.rs:405-445 | `to_xml` preserves the table invariant for every field |
| Cli.Namespaces.ToXml | src/main.rs:405-445 | the method updates the table in place and returns the names of the specification, with the corrected `prefix:<name>` for a namespaced field; see Findings |
| Cli.AllNamesKeepAllocated | src/main.rs:70-74 | after all fields, the table still gives each namespace its own prefix |
| Cli.CollectNames | src/main.rs:70-74 | the names of all fields in field order, collected into one fresh table whose prefixes are distinct; namespaced fields get the corrected name |
| Cli.QualifiedNameAsWrittenLosesName | src/main.rs:440 | as written, two different properties of one namespace are requested under the same name |
| Cli.FieldNamesAsWrittenLosesName | src/main.rs:431-443 | `to_xml` as written updates the table as the corrected version does. It asks for any two different properties of one namespace under one name, where the corrected names differ |
| Cli.NsPrefixNoColon | src/main.rs:439 | a generated prefix contains no colon |
| Cli.FieldNamesKeepName | src/main.rs:431-443 | with the corrected format, the name asked for splits at its first colon into the namespace's prefix and the property name, for every table the fields can build |
| Cli.QualifiedNameSplits | src/main.rs:440 | the corrected name splits at its first colon into the prefix and the property name |
| Cli.PasswordDebug | src/main.rs:244-248 | the output is one `*` per octet of the password's UTF-8, and nothing else |
| Cli.PasswordDebugHides | src/main.rs:244-248 | two passwords are shown alike iff their octet lengths agree; the mask is at least as long as the text, the same length iff the text is ASCII |
| Cli.ExtractPath | src/main.rs:453-478 | the prefix-stripping loop, which ends because the prefix gets shorter on each pass, computes the cell of the specification |
| Cli.PathCellSpec | src/main.rs:453-478 | the cell is `.` or a non-empty tail of the href with no leading slash; when the href starts with the url minus its trailing slashes, the cell is the rest of the href |
| Cli.SearchIsSuffix | src/main.rs:458-473 | whatever the loop settles on is a tail of the href |
| Cli.FirstSuccessful | src/main.rs:485-488 | the propstat chosen has a successful status and belongs to the response; there is none iff no status is successful |
| Cli.FirstSuccessfulIsFirst | src/main.rs:485-488 | the chosen propstat is the first successful one |

## Left out

- The `Async` strategy (src/web_client.rs:107-146). It is about scheduling futures. `Blocking` has the same combinator laws.
- The transport adapters for reqwest, ureq, minreq and attohttpc. The transport is a function parameter.
- `Request::send` itself is also part of that parameter.
- quick_xml. The parser of `prop_find` is a function parameter. The `PropValue` visitor reads an abstract event tree, not XML.
  - How quick_xml produces `$text` keys from mixed content is not modelled.
  - Its errors are an opaque code.
- The boxed foreign cause inside `Error::WebRequest` is an opaque tag. `Error::web_request` has no counterpart beyond that tag.
- `is_not_found` and `is_conflict`. The tool calls them, but the library shown does not define them.
- `PropValue`'s `Debug` and the tool's rendering of nested `PropValue`s. Both print a `HashMap` in iteration order, which is unspecified.
- From src/main.rs, these parts do I/O or use foreign libraries:
  - `main` and the argument parsing done by clap;
  - the table rendering of `list`;
  - `get`/`put` file and stdio copying;
  - `replace_env`;
  - `shorten`;
  - date parsing and formatting, `humansize`;
  - the percent-decoding at the end of the `path` column.
- The `list` columns other than `path`, beyond picking the first successful propstat. These are mostly date and size formatting from foreign crates. `ListField::Name` is a `todo!()`.
- The namespace bindings `list` passes to `prop_find`. They come from iterating a `HashMap`, in an unspecified order. The model keeps the table itself.
- Cli.ParseDepth lower-cases ASCII only, where the source uses Unicode `to_lowercase`. The outcome is the same:
  - the only non-ASCII characters whose lower case contains ASCII are U+212A and U+0130;
  - they become `k` and `i` followed by U+0307, and neither can begin `infinity`.
- Cli.FromName compares with ASCII case-folding, as clap does without its `unicode` feature.
- Cli.ExtractPath returns the cell before percent-decoding. The decoding and its UTF-8 fallback come from a foreign crate.
- Cli.Namespaces.ToXml: asks for a namespaced field as `prefix:<name>`, the corrected format, not the literal `prefix:name` of src/main.rs:440. Cli.FieldNamesAsWritten models the format as written; see Findings.
- Cli.FieldNamesNamespace: states the corrected name `prefix:<name>`, not the `prefix:name` the source writes at src/main.rs:440.
- Cli.CollectNames: collects the corrected names, so its names for namespaced fields differ from the program's at src/main.rs:440.
- PropFind.BodyRoundTrip and PropFind.BodyInjective hold only for names the body carries unambiguously. These are fields without `/`, binding prefixes without `=` and namespaces without `"`. The source writes names unescaped, and PropFind.FieldSlashMerges and PropFind.BindingQuoteMerges show that other names can share a body.
- Base64.EncoderWriter: the crate also keeps an internal output buffer and handles partial writes to the delegate. Writing to a `Vec` never fails, so the model appends encoded groups directly.

## Findings

| source | as written | input that shows it | evidently intended | confidence | as-written member | corrected member |
|---|---|---|---|---|---|---|
| src/main.rs:440 | `format!("{namespace_name}:name")` writes the literal text `name` instead of interpolating the field's name | fields `{urn:x}getetag` and `{urn:x}size` are both requested as `webdav-client-ns0:name` | `format!("{namespace_name}:{name}")`, the property name qualified by its namespace prefix | high, not executed | Cli.FieldNamesAsWrittenLosesName | Cli.FieldNamesKeepName |
