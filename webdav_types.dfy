/**
 * The response shapes of src/webdav_types.rs: `MultiStatus`, `Response`,
 * `PropStat`, `Status` with its success test, and the schema-less
 * `PropValue` with the map visitor of its `Deserialize` implementation.
 * The deserializer's input is an abstract event tree: a string, an element
 * given as its entries in document order, or a point where the deserializer
 * reports an error.
 */
module WebdavTypes {
  import opened Wrappers
  import Dav

  // ---------------------------------------------------------------------
  // Status.

  /** The `status` line of a propstat, e.g. `HTTP/1.1 200 OK`. */
  datatype Status = Status(line: string)

  /** `str::contains`: some window of `text` equals `needle`. */
  function Contains(text: string, needle: string): bool
    decreases |text|
  {
    if |text| < |needle| then false
    else text[..|needle|] == needle || Contains(text[1..], needle)
  }

  /** `needle` occurs in `text` starting at position `i`. */
  predicate OccursAt(text: string, needle: string, i: int) {
    0 <= i && i + |needle| <= |text| && text[i..i + |needle|] == needle
  }

  /** Contains finds a window exactly when there is one. */
  lemma {:induction false} ContainsSpec(text: string, needle: string)
    ensures Contains(text, needle) <==> exists i :: OccursAt(text, needle, i)
    decreases |text|
  {
    if |text| < |needle| {
      assert forall i :: !OccursAt(text, needle, i);
    } else if text[..|needle|] == needle {
      assert OccursAt(text, needle, 0);
    } else {
      var rest := text[1..];
      ContainsSpec(rest, needle);
      if Contains(rest, needle) {
        var i :| OccursAt(rest, needle, i);
        assert text[i + 1..i + 1 + |needle|] == rest[i..i + |needle|];
        assert OccursAt(text, needle, i + 1);
      }
      if exists i :: OccursAt(text, needle, i) {
        var i :| OccursAt(text, needle, i);
        assert i > 0;
        assert rest[i - 1..i - 1 + |needle|] == text[i..i + |needle|];
        assert OccursAt(rest, needle, i - 1);
      }
    }
  }

  /** `Status::is_successful`: the line contains a space followed by `2`. */
  function IsSuccessful(status: Status): bool
  {
    Contains(status.line, " 2")
  }

  /** A space directly followed by the digit 2 at position `i`. */
  predicate SpaceTwoAt(line: string, i: int) {
    0 <= i && i + 1 < |line| && line[i] == ' ' && line[i + 1] == '2'
  }

  /** Successful exactly when a space is directly followed by the digit 2 somewhere in the line. */
  lemma IsSuccessfulSpec(status: Status)
    ensures IsSuccessful(status) <==> exists i :: SpaceTwoAt(status.line, i)
  {
    var l := status.line;
    ContainsSpec(l, " 2");
    forall i ensures OccursAt(l, " 2", i) <==> SpaceTwoAt(l, i) {
      if 0 <= i && i + 1 < |l| {
        assert l[i..i + 2] == [l[i], l[i + 1]];
      }
    }
  }

  /** Any line with a space and a 2 side by side is successful, whatever surrounds them. */
  lemma SuccessfulAround(before: string, after: string)
    ensures IsSuccessful(Status(before + " 2" + after))
  {
    var line := before + " 2" + after;
    ContainsSpec(line, " 2");
    assert line[|before|..|before| + 2] == " 2";
    assert OccursAt(line, " 2", |before|);
  }

  /** The usual status lines: 200 and 207 succeed. */
  lemma SuccessExamples()
    ensures IsSuccessful(Status("HTTP/1.1 200 OK"))
    ensures IsSuccessful(Status("HTTP/1.1 207 Multi-Status"))
  {
    assert "HTTP/1.1 200 OK" == "HTTP/1.1" + " 2" + "00 OK";
    SuccessfulAround("HTTP/1.1", "00 OK");
    assert "HTTP/1.1 207 Multi-Status" == "HTTP/1.1" + " 2" + "07 Multi-Status";
    SuccessfulAround("HTTP/1.1", "07 Multi-Status");
  }

  /** A 404 status line has no space followed by a 2, so it is not successful. */
  lemma NotFoundExample()
    ensures !IsSuccessful(Status("HTTP/1.1 404 Not Found"))
  {
    var missing := "HTTP/1.1 404 Not Found";
    IsSuccessfulSpec(Status(missing));
    assert forall i :: !SpaceTwoAt(missing, i);
  }

  // ---------------------------------------------------------------------
  // Response shapes.

  /**
   * A property value without a schema: an empty element, text, or child
   * elements grouped by name, each name with its values in document order.
   */
  datatype PropValue = Empty | Text(text: string) | Xml(children: map<string, seq<PropValue>>)

  /** One `propstat`: a status and the properties it applies to. */
  datatype PropStat = PropStat(status: Status, prop: map<string, PropValue>)

  /** One `response` of a multistatus: its href and its propstats in document order. */
  datatype Response = Response(href: string, propstat: seq<PropStat>)

  /** The `multistatus` body: its responses in document order. */
  datatype MultiStatus = MultiStatus(responses: seq<Response>)

  // ---------------------------------------------------------------------
  // The visitor's input.

  /** What the deserializer hands the visitor: a string, a map of entries, or an error. */
  datatype Event = Str(s: string) | Map(entries: seq<Entry>) | Fault(error: Dav.DeError)

  /** One map entry: an element name (or `$text`) and its content. */
  datatype Entry = Entry(key: string, value: Event)

  /** The key quick_xml uses for text content mixed into an element. */
  const TextKey: string := "$text"

  /** A decoded entry: its key and value. */
  type Pair = (string, PropValue)

  // ---------------------------------------------------------------------
  // Grouping repeated keys.

  /**
   * What the visitor can return: an `Xml` value never holds an empty list
   * and never a `$text` key.
   */
  predicate WellGrouped(v: PropValue) {
    v.Xml? ==> TextKey !in v.children && forall k :: k in v.children ==> |v.children[k]| > 0
  }

  /** The map the visitor's loop builds: each value appended to the list under its key. */
  function Group(pairs: seq<Pair>): (m: map<string, seq<PropValue>>)
    ensures forall k :: k in m ==> |m[k]| > 0
    ensures (forall i :: 0 <= i < |pairs| ==> WellGrouped(pairs[i].1)) ==>
      forall k, j :: k in m && 0 <= j < |m[k]| ==> WellGrouped(m[k][j])
  {
    if pairs == [] then map[]
    else
      var m := Group(pairs[..|pairs| - 1]);
      var (k, v) := pairs[|pairs| - 1];
      m[k := (if k in m then m[k] else []) + [v]]
  }

  /** The keys of the pairs. */
  function KeysOf(pairs: seq<Pair>): set<string>
  {
    set i | 0 <= i < |pairs| :: pairs[i].0
  }

  /** The values stored under `key`, in the order they arrived. */
  function ValuesFor(pairs: seq<Pair>, key: string): seq<PropValue>
  {
    if pairs == [] then []
    else
      ValuesFor(pairs[..|pairs| - 1], key)
        + (if pairs[|pairs| - 1].0 == key then [pairs[|pairs| - 1].1] else [])
  }

  /** One more pair adds its key to the keys. */
  lemma KeysOfSnoc(pairs: seq<Pair>)
    requires pairs != []
    ensures KeysOf(pairs) == KeysOf(pairs[..|pairs| - 1]) + {pairs[|pairs| - 1].0}
  {
    var init := pairs[..|pairs| - 1];
    forall x | x in KeysOf(pairs) ensures x in KeysOf(init) + {pairs[|pairs| - 1].0} {
      var i :| 0 <= i < |pairs| && pairs[i].0 == x;
      if i < |init| {
        assert init[i] == pairs[i];
      }
    }
    forall x | x in KeysOf(init) ensures x in KeysOf(pairs) {
      var i :| 0 <= i < |init| && init[i].0 == x;
      assert pairs[i] == init[i];
    }
  }

  /**
   * Grouping keeps every entry: the keys are exactly the entries' keys, and
   * each key's list is all the values that came with it, in arrival order.
   */
  lemma {:induction false} GroupSpec(pairs: seq<Pair>)
    ensures Group(pairs).Keys == KeysOf(pairs)
    ensures forall k :: k in Group(pairs) ==> Group(pairs)[k] == ValuesFor(pairs, k)
    ensures forall k :: k !in Group(pairs) ==> ValuesFor(pairs, k) == []
  {
    if pairs != [] {
      GroupSpec(pairs[..|pairs| - 1]);
      KeysOfSnoc(pairs);
    }
  }

  // ---------------------------------------------------------------------
  // Decoding.

  /**
   * What the visitor returns for a grouped map: Empty for no entries; the
   * last `$text` value when there is one (every other key is dropped);
   * otherwise the grouped children.
   */
  function Finish(m: map<string, seq<PropValue>>): (v: PropValue)
    requires forall k :: k in m ==> |m[k]| > 0
    ensures m == map[] <==> v == Empty && TextKey !in m
    ensures TextKey in m ==> v == m[TextKey][|m[TextKey]| - 1]
    ensures m != map[] && TextKey !in m ==> v == Xml(m)
  {
    if |m| == 0 then Empty
    else if TextKey in m then
      var text := m[TextKey];
      text[|text| - 1]
    else Xml(m)
  }

  /** `PropValue::deserialize` on one event. */
  function Decode(e: Event): (r: Result<PropValue, Dav.DeError>)
    ensures r.Ok? ==> WellGrouped(r.value)
    decreases e, 1
  {
    match e
    case Str(s) => Ok(Text(s))
    case Fault(d) => Err(d)
    case Map(es) => DecodeMap(es)
  }

  /** The map visitor: read every entry, group them, then pick the result. */
  function DecodeMap(es: seq<Entry>): (r: Result<PropValue, Dav.DeError>)
    ensures r.Ok? ==> WellGrouped(r.value)
    decreases es, 1
  {
    match DecodeEntries(es)
    case Err(d) => Err(d)
    case Ok(pairs) => Ok(Finish(Group(pairs)))
  }

  /** The entries decoded in order; the first entry that fails stops the visit with its error. */
  function DecodeEntries(es: seq<Entry>): (r: Result<seq<Pair>, Dav.DeError>)
    ensures r.Ok? ==> |r.value| == |es|
    ensures r.Ok? ==> forall i :: 0 <= i < |es| ==> r.value[i].0 == es[i].key
    ensures r.Ok? ==> forall i :: 0 <= i < |es| ==> WellGrouped(r.value[i].1)
    decreases es, 0
  {
    if es == [] then Ok([])
    else
      match DecodeEntries(es[..|es| - 1])
      case Err(d) => Err(d)
      case Ok(pairs) =>
        match Decode(es[|es| - 1].value)
        case Err(d) => Err(d)
        case Ok(v) => Ok(pairs + [(es[|es| - 1].key, v)])
  }

  /** An error in a prefix of the entries is the error of the whole visit. */
  lemma {:induction false} DecodeEntriesErrorPersists(es: seq<Entry>, n: nat)
    requires n <= |es| && DecodeEntries(es[..n]).Err?
    ensures DecodeEntries(es) == DecodeEntries(es[..n])
    decreases |es|
  {
    if n < |es| {
      var init := es[..|es| - 1];
      assert init[..n] == es[..n];
      DecodeEntriesErrorPersists(init, n);
    } else {
      assert es[..n] == es;
    }
  }

  /** The decoded values of successfully decoded entries, entry by entry. */
  lemma {:induction false} DecodeEntriesValues(es: seq<Entry>)
    requires DecodeEntries(es).Ok?
    ensures forall i :: 0 <= i < |es| ==> Decode(es[i].value) == Ok(DecodeEntries(es).value[i].1)
    decreases |es|
  {
    if es != [] {
      var init := es[..|es| - 1];
      DecodeEntriesValues(init);
      forall i | 0 <= i < |es|
        ensures Decode(es[i].value) == Ok(DecodeEntries(es).value[i].1)
      {
        if i < |init| {
          assert es[i] == init[i];
        }
      }
    }
  }

  /** An element with no entries is Empty. */
  lemma EmptyElement()
    ensures Decode(Map([])) == Ok(Empty)
  {
  }

  /** A bare string is Text with the string unchanged. */
  lemma StringIsText(s: string)
    ensures Decode(Str(s)) == Ok(Text(s))
  {
  }

  /** The values an element's entries decode to under `key`, when every entry decodes. */
  function Children(es: seq<Entry>, key: string): seq<PropValue>
    requires DecodeEntries(es).Ok?
  {
    ValuesFor(DecodeEntries(es).value, key)
  }

  /** The entries' keys. */
  function EntryKeys(es: seq<Entry>): set<string>
  {
    set i | 0 <= i < |es| :: es[i].key
  }

  /**
   * An element whose entries all decode: with a `$text` entry, the value of
   * the last one; otherwise, when it has entries, `Xml` whose keys are
   * exactly the entries' distinct keys, none of them `$text`, each holding
   * the values of its entries in document order, so never an empty list.
   */
  lemma ElementSpec(es: seq<Entry>)
    requires DecodeEntries(es).Ok?
    ensures var r := DecodeMap(es); r.Ok?
    ensures es == [] ==> DecodeMap(es) == Ok(Empty)
    ensures TextKey in EntryKeys(es) ==>
      var texts := Children(es, TextKey); |texts| > 0 && DecodeMap(es) == Ok(texts[|texts| - 1])
    ensures es != [] && TextKey !in EntryKeys(es) ==>
      && DecodeMap(es).value.Xml?
      && DecodeMap(es).value.children.Keys == EntryKeys(es)
      && TextKey !in DecodeMap(es).value.children
      && (forall k :: k in EntryKeys(es) ==>
            DecodeMap(es).value.children[k] == Children(es, k) && |Children(es, k)| > 0)
  {
    var pairs := DecodeEntries(es).value;
    GroupSpec(pairs);
    assert KeysOf(pairs) == EntryKeys(es) by {
      forall x | x in EntryKeys(es) ensures x in KeysOf(pairs) {
        var i :| 0 <= i < |es| && es[i].key == x;
        assert pairs[i].0 == x;
      }
    }
    if es != [] {
      assert es[0].key in EntryKeys(es);
    }
  }

  /** An element whose last entry is a `$text` string is that text, whatever precedes it. */
  lemma {:induction false} LastTextWins(es: seq<Entry>, s: string)
    requires es != [] && es[|es| - 1] == Entry(TextKey, Str(s)) && DecodeEntries(es).Ok?
    ensures DecodeMap(es) == Ok(Text(s))
  {
    var pairs := DecodeEntries(es).value;
    var n := |es| - 1;
    DecodeEntriesValues(es);
    StringIsText(s);
    assert pairs[n] == (TextKey, Text(s));
    assert es[n].key in EntryKeys(es);
    ElementSpec(es);
    assert Children(es, TextKey) == ValuesFor(pairs[..n], TextKey) + [Text(s)];
  }

  /** The last of two `$text` entries wins, whatever other children the element has. */
  lemma TextExample(t: string, s: string, other: Event)
    requires Decode(other).Ok?
    ensures DecodeMap([Entry(TextKey, Str(t)), Entry("b", other), Entry(TextKey, Str(s))]) == Ok(Text(s))
  {
    var es := [Entry(TextKey, Str(t)), Entry("b", other), Entry(TextKey, Str(s))];
    StringIsText(t);
    StringIsText(s);
    assert es[..1][..0] == [];
    assert DecodeEntries(es[..1]).Ok?;
    assert es[..2][..1] == es[..1];
    assert DecodeEntries(es[..2]).Ok?;
    assert es[..3][..2] == es[..2] && es[..3] == es;
    assert DecodeEntries(es).Ok?;
    LastTextWins(es, s);
  }

  /** The entries of `<a>x</a><a>y</a><b/>`. */
  function ExampleEntries(x: string, y: string): seq<Entry>
  {
    [Entry("a", Str(x)), Entry("a", Str(y)), Entry("b", Map([]))]
  }

  /** They decode one by one, in order. */
  lemma ExampleDecodes(x: string, y: string)
    ensures DecodeEntries(ExampleEntries(x, y)) == Ok([("a", Text(x)), ("a", Text(y)), ("b", Empty)])
  {
    var es := ExampleEntries(x, y);
    var e1, e2 := es[..1], es[..2];
    assert e2[..1] == e1 && e1[..0] == [] && es[..2] == e2;
    assert DecodeEntries(e1).Ok?;
    assert DecodeEntries(e2).Ok?;
    assert DecodeEntries(es).Ok?;
    var pairs := DecodeEntries(es).value;
    DecodeEntriesValues(es);
    assert |pairs| == 3;
    assert pairs[0] == ("a", Text(x)) && pairs[1] == ("a", Text(y)) && pairs[2] == ("b", Empty);
    assert pairs == [("a", Text(x)), ("a", Text(y)), ("b", Empty)];
  }

  /** Both `a` values end up under `a`, in order. */
  lemma ExampleGroups(x: string, y: string)
    ensures Group([("a", Text(x)), ("a", Text(y)), ("b", Empty)]) == map["a" := [Text(x), Text(y)], "b" := [Empty]]
  {
    var pairs := [("a", Text(x)), ("a", Text(y)), ("b", Empty)];
    var p1, p2 := pairs[..1], pairs[..2];
    assert p2[..1] == p1 && p1[..0] == [] && pairs[..2] == p2;
    assert Group(p1[..0]) == map[];
    assert [] + [Text(x)] == [Text(x)] && [Text(x)] + [Text(y)] == [Text(x), Text(y)];
    assert Group(p1) == map["a" := [Text(x)]];
    assert Group(p2) == map["a" := [Text(x), Text(y)]];
    assert Group(pairs) == Group(p2)["b" := [] + [Empty]];
    assert [] + [Empty] == [Empty];
  }

  /** Repeated names are grouped in order: `<a>x</a><a>y</a><b/>`. */
  lemma GroupExample(x: string, y: string)
    ensures DecodeMap(ExampleEntries(x, y)) == Ok(Xml(map["a" := [Text(x), Text(y)], "b" := [Empty]]))
  {
    ExampleDecodes(x, y);
    ExampleGroups(x, y);
  }

  // ---------------------------------------------------------------------
  // The visitor as the program runs it.

  /** `PropValue::deserialize`: dispatch on the event. */
  method Deserialize(e: Event) returns (r: Result<PropValue, Dav.DeError>)
    ensures r == Decode(e)
    decreases e, 1
  {
    match e {
      case Str(s) => r := Ok(Text(s));
      case Fault(d) => r := Err(d);
      case Map(es) => r := VisitMap(es);
    }
  }

  /**
   * The `map` arm: a loop that pulls entries, deserializing each value and
   * pushing it onto the list under its key; an error ends the visit. Then
   * an empty map is Empty, a `$text` list is removed and its last value
   * returned, and anything else is Xml.
   */
  method VisitMap(es: seq<Entry>) returns (r: Result<PropValue, Dav.DeError>)
    ensures r == DecodeMap(es)
    decreases es, 0
  {
    var grouped := map[];
    var i := 0;
    while i < |es|
      invariant 0 <= i <= |es|
      invariant DecodeEntries(es[..i]).Ok?
      invariant grouped == Group(DecodeEntries(es[..i]).value)
    {
      assert es[..i + 1][..i] == es[..i];
      var value := Deserialize(es[i].value);
      if value.Err? {
        assert DecodeEntries(es[..i + 1]) == Err(value.error);
        DecodeEntriesErrorPersists(es, i + 1);
        return Err(value.error);
      }
      var key := es[i].key;
      grouped := grouped[key := (if key in grouped then grouped[key] else []) + [value.value]];
      i := i + 1;
    }
    assert es[..i] == es;
    if |grouped| == 0 {
      r := Ok(Empty);
    } else if TextKey in grouped {
      var text := grouped[TextKey];
      grouped := grouped - {TextKey};
      r := Ok(text[|text| - 1]);
    } else {
      r := Ok(Xml(grouped));
    }
  }
}
