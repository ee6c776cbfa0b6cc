/**
 * The string helpers of the command line tool in src/main.rs: joining the
 * host and a path (`Client::path`), the tool's `Client::new`, the `--depth`
 * and `--fields` parsers, the property names a field asks for
 * (`ListField::to_xml`, which allocates namespace prefixes in a mutable
 * table), `Password`'s masking `Debug`, and the href shortening of the
 * `path` column in `ListField::extract`.
 */
module Cli {
  import opened Wrappers
  import Utf8
  import Decimal
  import Dav
  import WebdavTypes
  import PropFind

  // ---------------------------------------------------------------------
  // Slashes.

  predicate StartsWithSlash(s: string) {
    |s| > 0 && s[0] == '/'
  }

  predicate EndsWithSlash(s: string) {
    |s| > 0 && s[|s| - 1] == '/'
  }

  /** `trim_start_matches('/')`: the text after the leading slashes. */
  function TrimStartSlashes(s: string): (r: string)
    ensures |r| <= |s| && r == s[|s| - |r|..]
    ensures !StartsWithSlash(r)
    ensures forall i :: 0 <= i < |s| - |r| ==> s[i] == '/'
  {
    if StartsWithSlash(s) then TrimStartSlashes(s[1..]) else s
  }

  /** `trim_end_matches('/')`: the text before the trailing slashes. */
  function TrimEndSlashes(s: string): (r: string)
    ensures |r| <= |s| && r == s[..|r|]
    ensures !EndsWithSlash(r)
    ensures forall i :: |r| <= i < |s| ==> s[i] == '/'
  {
    if EndsWithSlash(s) then TrimEndSlashes(s[..|s| - 1]) else s
  }

  // ---------------------------------------------------------------------
  // The tool's client.

  /** The `--password` value; its `Debug` hides it. */
  datatype Password = Password(text: string)

  /** The tool's `Client`: the library client and the server address. */
  datatype CliClient<T> = CliClient(inner: Dav.Client<T>, host: string)

  /**
   * `Client::new`: Basic authentication exactly when a login is given, with
   * the password if there is one; the password is dropped without a login.
   */
  function NewClient<T>(webClient: T, host: string, login: Option<string>, password: Option<Password>): (c: CliClient<T>)
    ensures c.host == host && c.inner.webClient == webClient
    ensures login.None? <==> c.inner.authentication.None?
    ensures login.Some? ==> c.inner.authentication.username == login.value
    ensures login.Some? ==> (c.inner.authentication.password.Some? <==> password.Some?)
    ensures login.Some? && password.Some? ==> c.inner.authentication.password.value == password.value.text
  {
    var auth :=
      if login.Some? then
        Dav.Basic(login.value, match password case None => Option.None case Some(p) => Option.Some(p.text))
      else Dav.None;
    CliClient(Dav.Authenticated(webClient, auth), host)
  }

  /**
   * `Client::path`: the host, then the path, with one slash between them
   * when neither brings one, and the path's leading slashes dropped when
   * the host already ends with one.
   */
  function JoinPath(host: string, path: string): string
  {
    if EndsWithSlash(host) && StartsWithSlash(path) then host + TrimStartSlashes(path)
    else if EndsWithSlash(host) || StartsWithSlash(path) then host + path
    else host + "/" + path
  }

  /**
   * The url starts with the host; the seam always has a slash, exactly one
   * when the host brings it; and what follows, without its leading slashes,
   * is the path without its leading slashes. When the host has no trailing
   * slash, what follows it is the path itself, given a slash in front
   * unless it already starts with one (its own slashes are all kept).
   */
  lemma JoinPathSpec(host: string, path: string)
    ensures var url := JoinPath(host, path);
      && |url| >= |host| && url[..|host|] == host
      && (EndsWithSlash(host) || (|url| > |host| && url[|host|] == '/'))
      && (EndsWithSlash(host) ==> !StartsWithSlash(url[|host|..]))
      && TrimStartSlashes(url[|host|..]) == TrimStartSlashes(path)
      && (!EndsWithSlash(host) ==>
            url[|host|..] == (if StartsWithSlash(path) then path else "/" + path))
  {
    var url := JoinPath(host, path);
    assert url[..|host|] == host;
    if EndsWithSlash(host) && StartsWithSlash(path) {
      assert url[|host|..] == TrimStartSlashes(path);
      TrimIdempotent(path);
    } else if EndsWithSlash(host) || StartsWithSlash(path) {
      assert url[|host|..] == path;
    } else {
      assert url[|host|..] == "/" + path;
      assert ("/" + path)[1..] == path;
    }
  }

  /** Trimming twice is trimming once. */
  lemma TrimIdempotent(s: string)
    ensures TrimStartSlashes(TrimStartSlashes(s)) == TrimStartSlashes(s)
  {
  }

  // ---------------------------------------------------------------------
  // `--depth`.

  /** ASCII lower case; every other character is kept. */
  function AsciiLower(c: char): char
  {
    if 'A' <= c <= 'Z' then (c as int + 32) as char else c
  }

  function Lowercase(s: string): (r: string)
    ensures |r| == |s|
    ensures forall i :: 0 <= i < |s| ==> r[i] == AsciiLower(s[i])
  {
    seq(|s|, i requires 0 <= i < |s| => AsciiLower(s[i]))
  }

  /** ASCII upper case, for stating case-insensitivity. */
  function Uppercase(s: string): (r: string)
    ensures |r| == |s|
    ensures forall i :: 0 <= i < |s| ==> r[i] == if 'a' <= s[i] <= 'z' then (s[i] as int - 32) as char else s[i]
  {
    seq(|s|, i requires 0 <= i < |s| => if 'a' <= s[i] <= 'z' then (s[i] as int - 32) as char else s[i])
  }

  predicate IsPrefix(p: string, s: string) {
    |p| <= |s| && s[..|p|] == p
  }

  /**
   * `parse_depth`: at least three octets that, lower-cased, begin
   * `infinity` mean Infinity; anything else is a `u32` or its parse error.
   */
  function ParseDepth(value: string): Result<Dav.Depth, Decimal.IntErrorKind>
  {
    if |Utf8.Encode(value)| >= 3 && IsPrefix(Lowercase(value), "infinity") then Ok(Dav.Infinity)
    else match Decimal.ParseU32(value)
      case Ok(n) => Ok(Dav.Some(n))
      case Err(e) => Err(e)
  }

  /** Abbreviations of `infinity` from three letters on, in any case, are Infinity. */
  lemma ParseDepthInfinity(value: string)
    requires 3 <= |value| && IsPrefix(Lowercase(value), "infinity")
    ensures ParseDepth(value) == Ok(Dav.Infinity)
  {
    Utf8.EncodeLength(value);
  }

  /** Any other text is read as a `u32`, errors included. */
  lemma ParseDepthNumber(value: string)
    requires !IsPrefix(Lowercase(value), "infinity") || |value| < 3
    ensures Decimal.ParseU32(value).Ok? ==> ParseDepth(value) == Ok(Dav.Some(Decimal.ParseU32(value).value))
    ensures Decimal.ParseU32(value).Err? ==> ParseDepth(value) == Err(Decimal.ParseU32(value).error)
  {
    if |value| < 3 && IsPrefix(Lowercase(value), "infinity") {
      // Two letters or fewer of `infinity` are ASCII, one octet each.
      assert Utf8.IsAscii(value) by {
        forall i | 0 <= i < |value| ensures value[i] as int < 0x80 {
          assert AsciiLower(value[i]) == "infinity"[i];
        }
      }
      Utf8.EncodeAscii(value);
    }
  }

  /** The option reads back every Depth header value the library sends. */
  lemma ParseDepthOfHeader(depth: Dav.Depth)
    ensures var text := Utf8.Decode(PropFind.DepthHeader(depth)); text.Some? && ParseDepth(text.value) == Ok(depth)
  {
    PropFind.DepthHeaderSpec(depth);
    var text := Utf8.Decode(PropFind.DepthHeader(depth)).value;
    if depth.Some? {
      assert Decimal.IsDigit(text[0]);
      assert Lowercase(text)[0] == text[0];
      assert !IsPrefix(Lowercase(text), "infinity");
    } else {
      assert Lowercase(text) == "infinity";
      Utf8.EncodeLength(text);
    }
  }

  /** `inf` and `INFINITY` are Infinity. */
  lemma ParseDepthInfinityExamples()
    ensures ParseDepth("inf") == Ok(Dav.Infinity)
    ensures ParseDepth("INFINITY") == Ok(Dav.Infinity)
  {
    assert Lowercase("inf") == "inf";
    ParseDepthInfinity("inf");
    assert Lowercase("INFINITY") == "infinity";
    ParseDepthInfinity("INFINITY");
  }

  /** `in` is too short for Infinity and is no number. */
  lemma ParseDepthTooShort()
    ensures ParseDepth("in") == Err(Decimal.InvalidDigit)
  {
    ParseDepthNumber("in");
  }

  /** `12x` is no number: the error is the `x`. */
  lemma ParseDepthBadDigit()
    ensures ParseDepth("12x") == Err(Decimal.InvalidDigit)
  {
    var value := "12x";
    assert Lowercase(value)[0] == '1';
    ParseDepthNumber(value);
    assert value[1..][1..] == "x";
  }

  // ---------------------------------------------------------------------
  // `--fields`.

  /** The columns `list` can show; `Other` asks for a property by name. */
  datatype ListField =
    | AbsolutePath | Path | Name | CreatedAt | ModifiedAt | ContentType | ResourceType
    | ContentLength | Size | FolderEntryCount | Tags | OwnerId | OwnerName
    | Other(namespaceUri: Option<string>, name: string)

  /** The fields clap knows by name: all but `Other`, which is skipped. */
  predicate Predefined(field: ListField) {
    !field.Other?
  }

  /** The kebab-case name a predefined field is selected by. */
  function FieldName(field: ListField): string
  {
    match field
    case AbsolutePath => "absolute-path"
    case Path => "path"
    case Name => "name"
    case CreatedAt => "created-at"
    case ModifiedAt => "modified-at"
    case ContentType => "content-type"
    case ResourceType => "resource-type"
    case ContentLength => "content-length"
    case Size => "size"
    case FolderEntryCount => "folder-entry-count"
    case Tags => "tags"
    case OwnerId => "owner-id"
    case OwnerName => "owner-name"
    case Other(_, name) => name
  }

  /** `eq_ignore_ascii_case`. */
  predicate EqIgnoreAsciiCase(a: string, b: string) {
    Lowercase(a) == Lowercase(b)
  }

  /** Different predefined fields have different names, in any case. */
  lemma FieldNamesDistinct(f: ListField, g: ListField)
    requires Predefined(f) && Predefined(g) && EqIgnoreAsciiCase(FieldName(f), FieldName(g))
    ensures f == g
  {
    var n, m := FieldName(f), FieldName(g);
    assert |n| == |m|;
    assert Lowercase(n)[0] == Lowercase(m)[0];
  }

  /**
   * clap's lookup of a predefined field: the first, in declaration order,
   * whose name equals the text ignoring ASCII case.
   */
  function FromName(value: string): (r: Option<ListField>)
    ensures r.Some? ==> Predefined(r.value) && EqIgnoreAsciiCase(FieldName(r.value), value)
    ensures r.None? ==> forall f :: Predefined(f) ==> !EqIgnoreAsciiCase(FieldName(f), value)
  {
    if EqIgnoreAsciiCase(FieldName(AbsolutePath), value) then Option.Some(AbsolutePath)
    else if EqIgnoreAsciiCase(FieldName(Path), value) then Option.Some(Path)
    else if EqIgnoreAsciiCase(FieldName(Name), value) then Option.Some(Name)
    else if EqIgnoreAsciiCase(FieldName(CreatedAt), value) then Option.Some(CreatedAt)
    else if EqIgnoreAsciiCase(FieldName(ModifiedAt), value) then Option.Some(ModifiedAt)
    else if EqIgnoreAsciiCase(FieldName(ContentType), value) then Option.Some(ContentType)
    else if EqIgnoreAsciiCase(FieldName(ResourceType), value) then Option.Some(ResourceType)
    else if EqIgnoreAsciiCase(FieldName(ContentLength), value) then Option.Some(ContentLength)
    else if EqIgnoreAsciiCase(FieldName(Size), value) then Option.Some(Size)
    else if EqIgnoreAsciiCase(FieldName(FolderEntryCount), value) then Option.Some(FolderEntryCount)
    else if EqIgnoreAsciiCase(FieldName(Tags), value) then Option.Some(Tags)
    else if EqIgnoreAsciiCase(FieldName(OwnerId), value) then Option.Some(OwnerId)
    else if EqIgnoreAsciiCase(FieldName(OwnerName), value) then Option.Some(OwnerName)
    else Option.None
  }

  /** A predefined field is selected exactly by its name, in any ASCII case. */
  lemma FromNameSpec(value: string, f: ListField)
    requires Predefined(f)
    ensures FromName(value) == Option.Some(f) <==> EqIgnoreAsciiCase(FieldName(f), value)
  {
    var r := FromName(value);
    if EqIgnoreAsciiCase(FieldName(f), value) {
      FieldNamesDistinct(r.value, f);
    }
  }

  /** The last position of `c` in `s`. */
  function LastIndexOf(s: string, c: char): (r: Option<nat>)
    ensures r.Some? ==> r.value < |s| && s[r.value] == c && forall i :: r.value < i < |s| ==> s[i] != c
    ensures r.None? ==> forall i :: 0 <= i < |s| ==> s[i] != c
  {
    if s == [] then Option.None
    else if s[|s| - 1] == c then Option.Some(|s| - 1)
    else LastIndexOf(s[..|s| - 1], c)
  }

  /** `parse_list_fields`' one error: a `{` without a `}`. */
  datatype FieldError = MissingClosingBrace

  /**
   * `parse_list_fields`: a predefined name in any case; otherwise `{uri}name`
   * split at the last `}`; otherwise the text as a property name with no
   * namespace.
   */
  function ParseListField(value: string): Result<ListField, FieldError>
  {
    match FromName(value)
    case Some(field) => Ok(field)
    case None => ParseOther(value)
  }

  /** The fallback of `parse_list_fields` for a name clap does not know. */
  function ParseOther(value: string): Result<ListField, FieldError>
  {
    if |value| > 0 && value[0] == '{' then
      var rest := value[1..];
      match LastIndexOf(rest, '}')
      case None => Err(MissingClosingBrace)
      case Some(i) => Ok(Other(Option.Some(rest[..i]), rest[i + 1..]))
    else Ok(Other(Option.None, value))
  }

  /** No predefined name starts with `{`. */
  lemma NoBraceName(value: string)
    requires |value| > 0 && value[0] == '{'
    ensures FromName(value) == Option.None
  {
    forall f | Predefined(f) ensures !EqIgnoreAsciiCase(FieldName(f), value) {
      assert Lowercase(value)[0] == '{';
      assert Lowercase(FieldName(f))[0] != '{';
    }
  }

  /**
   * A braced field reads back as the namespace and the name, whatever the
   * namespace holds, as long as the name has no `}`.
   */
  lemma ParseBracedField(uri: string, name: string)
    requires forall i :: 0 <= i < |name| ==> name[i] != '}'
    ensures ParseListField("{" + uri + "}" + name) == Ok(Other(Option.Some(uri), name))
  {
    NoBraceName("{" + uri + "}" + name);
    ParseOtherBraced(uri, name);
  }

  /** The fallback splits `{uri}name` at the brace before the name. */
  lemma ParseOtherBraced(uri: string, name: string)
    requires forall i :: 0 <= i < |name| ==> name[i] != '}'
    ensures ParseOther("{" + uri + "}" + name) == Ok(Other(Option.Some(uri), name))
  {
    var value := "{" + uri + "}" + name;
    var rest := value[1..];
    assert rest == uri + "}" + name;
    LastBrace(uri, name);
    assert rest[..|uri|] == uri && rest[|uri| + 1..] == name;
  }

  /** The last `}` of `uri}name` is the one before the name when the name has none. */
  lemma LastBrace(uri: string, name: string)
    requires forall i :: 0 <= i < |name| ==> name[i] != '}'
    ensures LastIndexOf(uri + "}" + name, '}') == Option.Some(|uri|)
  {
    var open := uri + "}";
    assert open[|uri|] == '}';
    NoneAfter(open, name, '}');
    LastIndexOfIs(open + name, '}', |uri|);
  }

  /** The characters a concatenation takes from its second part. */
  lemma NoneAfter(a: string, b: string, c: char)
    requires forall i :: 0 <= i < |b| ==> b[i] != c
    requires |a| > 0
    ensures (a + b)[|a| - 1] == a[|a| - 1]
    ensures forall i :: |a| <= i < |a + b| ==> (a + b)[i] != c
  {
  }

  /** An occurrence with none after it is the last. */
  lemma LastIndexOfIs(s: string, c: char, k: nat)
    requires k < |s| && s[k] == c
    requires forall i :: k < i < |s| ==> s[i] != c
    ensures LastIndexOf(s, c) == Option.Some(k)
  {
    var r := LastIndexOf(s, c);
    assert r.Some?;
    assert !(r.value < k);
  }

  /** A `{` that is never closed is an error. */
  lemma ParseUnclosedBrace(uri: string)
    requires forall i :: 0 <= i < |uri| ==> uri[i] != '}'
    ensures ParseListField("{" + uri) == Err(MissingClosingBrace)
  {
    NoBraceName("{" + uri);
    assert ("{" + uri)[1..] == uri;
  }

  /** Text that names no predefined field and has no leading `{` is a bare property name. */
  lemma ParsePlainField(value: string)
    requires FromName(value).None?
    requires !(|value| > 0 && value[0] == '{')
    ensures ParseListField(value) == Ok(Other(Option.None, value))
  {
  }

  /** Every predefined field is parsed from its name, in lower and in upper case. */
  lemma ParseFieldName(f: ListField)
    requires Predefined(f)
    ensures ParseListField(FieldName(f)) == Ok(f)
    ensures ParseListField(Uppercase(FieldName(f))) == Ok(f)
  {
    var name := FieldName(f);
    assert Lowercase(Uppercase(name)) == Lowercase(name);
    FromNameSpec(name, f);
    FromNameSpec(Uppercase(name), f);
  }

  // ---------------------------------------------------------------------
  // `ListField::to_xml` and its namespace table.

  /** The prefix given to the namespace that is the `n`-th to be seen. */
  function NsPrefix(n: nat): string
  {
    "webdav-client-ns" + Decimal.ToString(n)
  }

  /** Different counts give different prefixes. */
  lemma NsPrefixInjective(m: nat, n: nat)
    requires NsPrefix(m) == NsPrefix(n)
    ensures m == n
  {
    var head := "webdav-client-ns";
    assert NsPrefix(m)[|head|..] == Decimal.ToString(m);
    assert NsPrefix(n)[|head|..] == Decimal.ToString(n);
    Decimal.ToStringInjective(m, n);
  }

  /** The property name `prefix:name`. */
  function QualifiedName(prefix: string, name: string): string
  {
    prefix + ":" + name
  }

  /** Every prefix in the table was given out by count: one of the first `|table|`. */
  predicate Issued(table: map<string, string>) {
    forall uri :: uri in table ==> exists i :: 0 <= i < |table| && table[uri] == NsPrefix(i)
  }

  /** No two namespaces share a prefix. */
  predicate OnePerNamespace(table: map<string, string>) {
    forall u, v :: u in table && v in table && u != v ==> table[u] != table[v]
  }

  /** The invariant of the namespace table. */
  predicate Allocated(table: map<string, string>) {
    Issued(table) && OnePerNamespace(table)
  }

  /** The names a field asks for, and the table after it. */
  function FieldNames(field: ListField, table: map<string, string>): (map<string, string>, seq<string>)
  {
    match field
    case AbsolutePath => (table, [])
    case Path => (table, [])
    case Name => (table, ["d:displayname"])
    case CreatedAt => (table, ["d:creationdate"])
    case ModifiedAt => (table, ["d:getlastmodified"])
    case ContentType => (table, ["d:getcontenttype"])
    case ResourceType => (table, ["d:resourcetype"])
    case ContentLength => (table, ["d:getcontentlength"])
    case Size => (table, ["d:getcontentlength", "oc:size"])
    case FolderEntryCount => (table, ["nc:contained-folder-count", "nc:contained-file-count"])
    case Tags => (table, ["oc:tags", "nc:system-tags"])
    case OwnerId => (table, ["oc:owner-id"])
    case OwnerName => (table, ["oc:owner-display-name"])
    case Other(None, name) => (table, [name])
    case Other(Some(uri), name) =>
      var table' := if uri in table then table else table[uri := NsPrefix(|table|)];
      (table', [QualifiedName(table'[uri], name)])
  }

  /**
   * A field without a namespace leaves the table alone and asks for at
   * most two names: none for the two path columns, at least one otherwise,
   * and a bare name as it is.
   */
  lemma FieldNamesPlain(field: ListField, table: map<string, string>)
    requires !(field.Other? && field.namespaceUri.Some?)
    ensures var (table', names) := FieldNames(field, table);
      && table' == table
      && |names| <= 2
      && (names == [] <==> field.Path? || field.AbsolutePath?)
      && (field.Other? ==> names == [field.name])
  {
  }

  /**
   * A field with a namespace: a known namespace keeps its prefix and the
   * table is unchanged; a new one gets the next prefix by count and is the
   * only entry added; the one name asked for is qualified by that prefix.
   */
  lemma FieldNamesNamespace(uri: string, name: string, table: map<string, string>)
    ensures var (table', names) := FieldNames(Other(Option.Some(uri), name), table);
      && table'.Keys == table.Keys + {uri}
      && (forall u :: u in table ==> table'[u] == table[u])
      && (uri in table ==> table' == table)
      && (uri !in table ==> table'[uri] == NsPrefix(|table|) && |table'| == |table| + 1)
      && names == [QualifiedName(table'[uri], name)]
  {
    if uri !in table {
      AddKey(table, uri, NsPrefix(|table|));
    }
  }

  /** A new key makes the table one larger. */
  lemma AddKey(table: map<string, string>, uri: string, prefix: string)
    requires uri !in table
    ensures |table[uri := prefix]| == |table| + 1
  {
    assert table[uri := prefix].Keys == table.Keys + {uri};
  }

  /** The next prefix by count keeps every prefix issued. */
  lemma IssueNext(table: map<string, string>, uri: string)
    requires Issued(table) && uri !in table
    ensures Issued(table[uri := NsPrefix(|table|)])
  {
    var table' := table[uri := NsPrefix(|table|)];
    AddKey(table, uri, NsPrefix(|table|));
    forall u | u in table' ensures exists i :: 0 <= i < |table'| && table'[u] == NsPrefix(i) {
      if u == uri {
        assert table'[u] == NsPrefix(|table|);
      } else {
        var i :| 0 <= i < |table| && table[u] == NsPrefix(i);
        assert table'[u] == NsPrefix(i);
      }
    }
  }

  /** The next prefix by count is not one given out before. */
  lemma NextIsNew(table: map<string, string>, uri: string)
    requires Issued(table)
    ensures forall u :: u in table ==> table[u] != NsPrefix(|table|)
  {
    forall u | u in table ensures table[u] != NsPrefix(|table|) {
      var i :| 0 <= i < |table| && table[u] == NsPrefix(i);
      if table[u] == NsPrefix(|table|) {
        NsPrefixInjective(i, |table|);
      }
    }
  }

  /** A new namespace's prefix differs from every prefix given out before. */
  lemma AllocateKeepsDistinct(table: map<string, string>, uri: string)
    requires Allocated(table) && uri !in table
    ensures Allocated(table[uri := NsPrefix(|table|)])
  {
    IssueNext(table, uri);
    NextIsNew(table, uri);
  }

  /** Prefixes stay one per namespace across every field. */
  lemma FieldNamesKeepAllocated(field: ListField, table: map<string, string>)
    requires Allocated(table)
    ensures Allocated(FieldNames(field, table).0)
  {
    if field.Other? && field.namespaceUri.Some? && field.namespaceUri.value !in table {
      AllocateKeepsDistinct(table, field.namespaceUri.value);
    }
  }

  /** `to_xml`'s namespace table, updated in place. */
  class Namespaces {
    /** Namespace name to prefix. */
    var prefixes: map<string, string>

    constructor ()
      ensures prefixes == map[]
    {
      prefixes := map[];
    }

    /**
     * `ListField::to_xml`: the property names the field is asked for by,
     * in order, allocating a prefix for a namespace not seen before.
     */
    method ToXml(field: ListField) returns (names: seq<string>)
      modifies this
      ensures (prefixes, names) == FieldNames(field, old(prefixes))
    {
      match field {
        case AbsolutePath => names := [];
        case Path => names := [];
        case Name => names := ["d:displayname"];
        case CreatedAt => names := ["d:creationdate"];
        case ModifiedAt => names := ["d:getlastmodified"];
        case ContentType => names := ["d:getcontenttype"];
        case ResourceType => names := ["d:resourcetype"];
        case ContentLength => names := ["d:getcontentlength"];
        case Size => names := ["d:getcontentlength", "oc:size"];
        case FolderEntryCount => names := ["nc:contained-folder-count", "nc:contained-file-count"];
        case Tags => names := ["oc:tags", "nc:system-tags"];
        case OwnerId => names := ["oc:owner-id"];
        case OwnerName => names := ["oc:owner-display-name"];
        case Other(None, name) => names := [name];
        case Other(Some(uri), name) =>
          var len := |prefixes|;
          if uri !in prefixes {
            prefixes := prefixes[uri := NsPrefix(len)];
          }
          names := [QualifiedName(prefixes[uri], name)];
      }
    }
  }

  /** The names of all fields, in field order, and the table after them. */
  function AllNames(fields: seq<ListField>, table: map<string, string>): (map<string, string>, seq<string>)
  {
    if fields == [] then (table, [])
    else
      var (table1, names1) := AllNames(fields[..|fields| - 1], table);
      var (table2, names2) := FieldNames(fields[|fields| - 1], table1);
      (table2, names1 + names2)
  }

  /** Every prefix in the table after any fields was given out once, by count. */
  lemma {:induction false} AllNamesKeepAllocated(fields: seq<ListField>, table: map<string, string>)
    requires Allocated(table)
    ensures Allocated(AllNames(fields, table).0)
  {
    if fields != [] {
      AllNamesKeepAllocated(fields[..|fields| - 1], table);
      FieldNamesKeepAllocated(fields[|fields| - 1], AllNames(fields[..|fields| - 1], table).0);
    }
  }

  /** `list`'s collection of the names of all fields into one fresh table. */
  method CollectNames(fields: seq<ListField>) returns (names: seq<string>, table: Namespaces)
    ensures fresh(table)
    ensures (table.prefixes, names) == AllNames(fields, map[])
    ensures Allocated(table.prefixes)
  {
    table := new Namespaces();
    names := [];
    for i := 0 to |fields|
      invariant (table.prefixes, names) == AllNames(fields[..i], map[])
    {
      assert fields[..i + 1][..i] == fields[..i];
      var more := table.ToXml(fields[i]);
      names := names + more;
    }
    assert fields[..|fields|] == fields;
    AllNamesKeepAllocated(fields, map[]);
  }

  /** The name `to_xml` writes for a field with a namespace: the prefix, then `:name` literally. */
  function QualifiedNameAsWritten(prefix: string, name: string): string
  {
    prefix + ":name"
  }

  /** As written, every property of one namespace is asked for as the same `name`. */
  lemma QualifiedNameAsWrittenLosesName(prefix: string)
    ensures QualifiedNameAsWritten(prefix, "getetag") == QualifiedNameAsWritten(prefix, "size")
    ensures QualifiedName(prefix, "getetag") != QualifiedName(prefix, "size")
  {
    assert QualifiedName(prefix, "getetag")[|prefix| + 1..] == "getetag";
    assert QualifiedName(prefix, "size")[|prefix| + 1..] == "size";
  }

  /**
   * `to_xml` as written: the table is updated as in FieldNames, but a field
   * with a namespace is asked for as the prefix followed by `:name` literally.
   */
  function FieldNamesAsWritten(field: ListField, table: map<string, string>): (map<string, string>, seq<string>)
  {
    match field
    case Other(Some(uri), name) =>
      var table' := if uri in table then table else table[uri := NsPrefix(|table|)];
      (table', [QualifiedNameAsWritten(table'[uri], name)])
    case _ => FieldNames(field, table)
  }

  /**
   * As written, two different properties of one namespace are asked for
   * under one and the same name, where the corrected names differ; the
   * table is the same either way.
   */
  lemma FieldNamesAsWrittenLosesName(uri: string, a: string, b: string, table: map<string, string>)
    requires a != b
    ensures FieldNamesAsWritten(Other(Option.Some(uri), a), table) == FieldNamesAsWritten(Other(Option.Some(uri), b), table)
    ensures FieldNames(Other(Option.Some(uri), a), table).1 != FieldNames(Other(Option.Some(uri), b), table).1
    ensures FieldNamesAsWritten(Other(Option.Some(uri), a), table).0 == FieldNames(Other(Option.Some(uri), a), table).0
  {
    var table' := FieldNames(Other(Option.Some(uri), a), table).0;
    var p := table'[uri];
    assert QualifiedName(p, a)[|p| + 1..] == a;
    assert QualifiedName(p, b)[|p| + 1..] == b;
  }

  /** A prefix given out by count has no colon in it. */
  lemma NsPrefixNoColon(n: nat)
    ensures forall i :: 0 <= i < |NsPrefix(n)| ==> NsPrefix(n)[i] != ':'
  {
    var head, digits := "webdav-client-ns", Decimal.ToString(n);
    forall i | 0 <= i < |NsPrefix(n)| ensures NsPrefix(n)[i] != ':' {
      if i >= |head| {
        assert NsPrefix(n)[i] == digits[i - |head|];
      } else {
        assert NsPrefix(n)[i] == head[i];
      }
    }
  }

  /**
   * With the corrected name, what `to_xml` asks for a namespaced field
   * splits at its first colon into the namespace's prefix and the property
   * name, for any table the fields so far can have built.
   */
  lemma FieldNamesKeepName(uri: string, name: string, table: map<string, string>)
    requires Allocated(table)
    ensures var (table', names) := FieldNames(Other(Option.Some(uri), name), table);
      var p := table'[uri];
      && |names| == 1
      && PropFind.IndexOf(names[0], ':', 0) == Option.Some(|p|)
      && names[0][..|p|] == p && names[0][|p| + 1..] == name
  {
    var table' := FieldNames(Other(Option.Some(uri), name), table).0;
    var n: nat := |table|;
    if uri in table {
      var i :| 0 <= i < |table| && table[uri] == NsPrefix(i);
      n := i;
    }
    assert table'[uri] == NsPrefix(n);
    NsPrefixNoColon(n);
    QualifiedNameSplits(table'[uri], name);
  }

  /** Qualified with a prefix that has no colon, the name is recovered after the first colon. */
  lemma QualifiedNameSplits(prefix: string, name: string)
    requires forall i :: 0 <= i < |prefix| ==> prefix[i] != ':'
    ensures var q := QualifiedName(prefix, name);
      PropFind.IndexOf(q, ':', 0) == Option.Some(|prefix|) && q[..|prefix|] == prefix && q[|prefix| + 1..] == name
  {
    var q := QualifiedName(prefix, name);
    assert q[|prefix|] == ':';
    forall j | 0 <= j < |prefix| ensures q[j] != ':' {
      assert q[j] == prefix[j];
    }
    PropFind.IndexOfFirst(q, ':', 0, |prefix|);
  }

  // ---------------------------------------------------------------------
  // `Password`'s `Debug`.

  /** `n` asterisks. */
  function Stars(n: nat): (r: string)
    ensures |r| == n
    ensures forall i :: 0 <= i < n ==> r[i] == '*'
  {
    if n == 0 then "" else Stars(n - 1) + "*"
  }

  /** An asterisk per octet of the password, and nothing else. */
  function PasswordDebug(password: Password): (r: string)
    ensures |r| == |Utf8.Encode(password.text)|
    ensures forall i :: 0 <= i < |r| ==> r[i] == '*'
  {
    Stars(|Utf8.Encode(password.text)|)
  }

  /**
   * The mask shows the password's length in octets and nothing more: two
   * passwords mask alike exactly when their UTF-8 lengths agree, and the
   * mask is as long as the text exactly when the text is ASCII.
   */
  lemma PasswordDebugHides(p: Password, q: Password)
    ensures PasswordDebug(p) == PasswordDebug(q) <==> |Utf8.Encode(p.text)| == |Utf8.Encode(q.text)|
    ensures |PasswordDebug(p)| >= |p.text|
    ensures |PasswordDebug(p)| == |p.text| <==> Utf8.IsAscii(p.text)
  {
    Utf8.EncodeLength(p.text);
    if |Utf8.Encode(p.text)| == |Utf8.Encode(q.text)| {
      assert PasswordDebug(p) == PasswordDebug(q);
    }
  }

  // ---------------------------------------------------------------------
  // The `path` column of `ListField::extract`.

  /** `strip_prefix`. */
  function StripPrefix(s: string, prefix: string): (r: Option<string>)
    ensures r.Some? <==> IsPrefix(prefix, s)
    ensures r.Some? ==> s == prefix + r.value
  {
    if IsPrefix(prefix, s) then Option.Some(s[|prefix|..]) else Option.None
  }

  /**
   * The search loop: the href without `prefix`, or without `prefix` less
   * its leading slash; failing both, the prefix from its next inner slash
   * on; the whole href when the prefix runs out.
   */
  function Search(href: string, prefix: string): string
    decreases |prefix|
  {
    if prefix == [] then href
    else match StripPrefix(href, prefix)
      case Some(rest) => rest
      case None =>
        match (if StartsWithSlash(prefix) then StripPrefix(href, prefix[1..]) else Option.None)
        case Some(rest) => rest
        case None =>
          var inner := if StartsWithSlash(prefix) then prefix[1..] else prefix;
          match PropFind.IndexOf(inner, '/', 0)
          case None => href
          case Some(i) => Search(href, inner[i..])
  }

  /** What is left of the href before the leading slashes are trimmed. */
  function Remainder(href: string, prefix: string): string
  {
    var trimmed := TrimEndSlashes(prefix);
    match StripPrefix(href, trimmed)
    case Some(rest) => rest
    case None => Search(href, trimmed)
  }

  /** The `path` cell for an href under the listed url. */
  function PathCell(href: string, prefix: string): string
  {
    var rest := TrimStartSlashes(Remainder(href, prefix));
    if rest == [] then "." else rest
  }

  /** `extract` for `Path`, up to the percent-decoding of the result. */
  method ExtractPath(href: string, prefix: string) returns (cell: string)
    ensures cell == PathCell(href, prefix)
  {
    var p := TrimEndSlashes(prefix);
    var remainder := href;
    var stripped := StripPrefix(href, p);
    if stripped.Some? {
      remainder := stripped.value;
    } else {
      while p != []
        invariant Search(href, p) == Search(href, TrimEndSlashes(prefix))
        decreases |p|
      {
        stripped := StripPrefix(href, p);
        if stripped.None? && StartsWithSlash(p) {
          stripped := StripPrefix(href, p[1..]);
        }
        if stripped.Some? {
          remainder := stripped.value;
          break;
        }
        if StartsWithSlash(p) {
          p := p[1..];
        }
        var index := PropFind.IndexOf(p, '/', 0);
        if index.None? {
          break;
        }
        p := p[index.value..];
      }
    }
    remainder := TrimStartSlashes(remainder);
    if remainder == [] {
      cell := ".";
    } else {
      cell := remainder;
    }
  }

  /**
   * The cell is `.` or a non-empty tail of the href with no leading slash;
   * when the href starts with the url (trailing slashes dropped), it is
   * what follows the url.
   */
  lemma PathCellSpec(href: string, prefix: string)
    ensures var cell := PathCell(href, prefix);
      && cell != []
      && (cell == "." || (!StartsWithSlash(cell) && IsSuffix(cell, href)))
      && (IsPrefix(TrimEndSlashes(prefix), href) ==>
            var rest := TrimStartSlashes(href[|TrimEndSlashes(prefix)|..]);
            cell == if rest == [] then "." else rest)
  {
    var r := Remainder(href, prefix);
    RemainderIsSuffix(href, prefix);
    var t := TrimStartSlashes(r);
    SuffixOfSuffix(t, r, href);
  }

  /** A tail of a tail is a tail. */
  lemma SuffixOfSuffix(t: string, r: string, s: string)
    requires |t| <= |r| && t == r[|r| - |t|..]
    requires IsSuffix(r, s)
    ensures IsSuffix(t, s)
  {
    assert s[|s| - |t|..] == s[|s| - |r|..][|r| - |t|..];
  }

  /** What the search and the first test leave is a tail of the href. */
  lemma RemainderIsSuffix(href: string, prefix: string)
    ensures IsSuffix(Remainder(href, prefix), href)
  {
    var trimmed := TrimEndSlashes(prefix);
    if IsPrefix(trimmed, href) {
      assert Remainder(href, prefix) == href[|trimmed|..];
    } else {
      SearchIsSuffix(href, trimmed);
    }
  }

  predicate IsSuffix(t: string, s: string) {
    |t| <= |s| && s[|s| - |t|..] == t
  }

  /** Whatever the search settles on is a tail of the href. */
  lemma {:induction false} SearchIsSuffix(href: string, prefix: string)
    ensures IsSuffix(Search(href, prefix), href)
    decreases |prefix|
  {
    if prefix != [] && StripPrefix(href, prefix).None?
       && (if StartsWithSlash(prefix) then StripPrefix(href, prefix[1..]) else Option.None).None? {
      var inner := if StartsWithSlash(prefix) then prefix[1..] else prefix;
      match PropFind.IndexOf(inner, '/', 0)
      case None =>
      case Some(i) => SearchIsSuffix(href, inner[i..]);
    }
  }

  // ---------------------------------------------------------------------
  // The other columns.

  /** The propstat the other columns are read from: the first with a successful status. */
  function FirstSuccessful(propstat: seq<WebdavTypes.PropStat>): (r: Option<WebdavTypes.PropStat>)
    ensures r.Some? ==> r.value in propstat && WebdavTypes.IsSuccessful(r.value.status)
    ensures r.None? <==> forall ps :: ps in propstat ==> !WebdavTypes.IsSuccessful(ps.status)
  {
    if propstat == [] then Option.None
    else if WebdavTypes.IsSuccessful(propstat[0].status) then Option.Some(propstat[0])
    else FirstSuccessful(propstat[1..])
  }

  /** It is the first: every propstat before the chosen one failed. */
  lemma {:induction false} FirstSuccessfulIsFirst(propstat: seq<WebdavTypes.PropStat>, k: nat)
    requires k < |propstat| && WebdavTypes.IsSuccessful(propstat[k].status)
    requires forall j :: 0 <= j < k ==> !WebdavTypes.IsSuccessful(propstat[j].status)
    ensures FirstSuccessful(propstat) == Option.Some(propstat[k])
  {
    if k > 0 {
      FirstSuccessfulIsFirst(propstat[1..], k - 1);
    }
  }
}
