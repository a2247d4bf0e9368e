// The Rack middleware that serves the Prometheus exposition endpoint
// (lib/prometheus/middleware/exporter.rb): requests to the configured path get
// the registry in a format negotiated from their Accept header, every other
// request goes to the next application unchanged.
module Middleware {

  import opened Wrappers
  import opened RubyText
  import opened AcceptParsing
  import opened Metrics

  /** An exposition format, known by its full content type and by its bare media type. */
  datatype Format = Format(contentType: string, mediaType: string)

  /** `Client::Formats::Text`, the text exposition format of version 0.0.4. */
  const Text := Format("text/plain; version=0.0.4", "text/plain")

  /** `FORMATS` and `FALLBACK`: the formats the exporter offers, and the one the wildcard selects. */
  const Formats: seq<Format> := [Text]
  const Fallback := Text

  // The key that any media type matches: "*/*".
  const Wildcard := "*/*"

  /** A Rack environment; the exporter reads only `PATH_INFO` and `HTTP_ACCEPT`. */
  type Env = map<string, string>

  /** A piece of a response body: plain text, or `format.marshal(registry)` left unevaluated. */
  datatype Body = Plain(text: string) | Exposition(format: Format, registry: Registry)

  /** A Rack response triple: status, headers, body. */
  datatype Response = Response(status: int, headers: map<string, string>, body: seq<Body>)

  // env.fetch('HTTP_ACCEPT', '*/*'): a request without the header accepts anything.
  function AcceptHeader(env: Env): (header: string)
    ensures "HTTP_ACCEPT" in env ==> header == env["HTTP_ACCEPT"]
    ensures "HTTP_ACCEPT" !in env ==> header == "*/*"
  {
    if "HTTP_ACCEPT" in env then env["HTTP_ACCEPT"] else Wildcard
  }

  /** `format` is filed under `key` in the dictionary. */
  predicate Names(format: Format, key: string) {
    key == format.contentType || key == format.mediaType
  }

  // The dictionary `build_dictionary` produces: the wildcard filed under the
  // fallback, then each format in turn under its content type and its media
  // type, a later entry replacing an earlier one under the same key.
  function Dictionary(formats: seq<Format>, fallback: Format): (table: map<string, Format>)
    ensures Wildcard in table
    ensures forall key :: key in table ==> table[key] == fallback || table[key] in formats
  {
    if formats == [] then map[Wildcard := fallback]
    else
      var format := formats[|formats| - 1];
      Dictionary(formats[..|formats| - 1], fallback)[format.contentType := format][format.mediaType := format]
  }

  /** `build_dictionary(formats, fallback)`, filling the table one format at a time. */
  method BuildDictionary(formats: seq<Format>, fallback: Format) returns (memo: map<string, Format>)
    ensures memo == Dictionary(formats, fallback)
    ensures memo.Keys == {Wildcard} + (set f | f in formats :: f.contentType) + (set f | f in formats :: f.mediaType)
  {
    memo := map[Wildcard := fallback];
    for i := 0 to |formats|
      invariant memo == Dictionary(formats[..i], fallback)
    {
      assert formats[..i + 1][..i] == formats[..i];
      memo := memo[formats[i].contentType := formats[i]];
      memo := memo[formats[i].mediaType := formats[i]];
    }
    assert formats[..|formats|] == formats;
    DictionaryKeys(formats, fallback);
  }

  /** What negotiation picks is an entry of the table. */
  lemma PreferredIsEntry(order: seq<Candidate>, formats: map<string, Format>, format: Format)
    requires Preferred(order, formats) == Some(format)
    ensures exists key :: key in formats && formats[key] == format
  {
    var i :| FirstAt(order, formats, i) && format == formats[order[i].key];
  }

  /** The keys of the dictionary are the wildcard and every format's content type and media type. */
  lemma {:induction false} DictionaryKeys(formats: seq<Format>, fallback: Format)
    ensures Dictionary(formats, fallback).Keys ==
              {Wildcard} + (set f | f in formats :: f.contentType) + (set f | f in formats :: f.mediaType)
  {
    if formats != [] {
      var init := formats[..|formats| - 1];
      DictionaryKeys(init, fallback);
      assert formats == init + [formats[|formats| - 1]];
      TypesOfAppend(init, formats[|formats| - 1]);
    }
  }

  /** The content types and media types of a list with one more format. */
  lemma TypesOfAppend(init: seq<Format>, last: Format)
    ensures (set f | f in init + [last] :: f.contentType) == (set f | f in init :: f.contentType) + {last.contentType}
    ensures (set f | f in init + [last] :: f.mediaType) == (set f | f in init :: f.mediaType) + {last.mediaType}
  {
  }

  /** A key is filed under the last format that names it. */
  lemma {:induction false} DictionaryLastWins(formats: seq<Format>, fallback: Format, i: nat, key: string)
    requires i < |formats| && Names(formats[i], key)
    requires forall j :: i < j < |formats| ==> !Names(formats[j], key)
    ensures key in Dictionary(formats, fallback) && Dictionary(formats, fallback)[key] == formats[i]
    decreases |formats|
  {
    if i < |formats| - 1 {
      DictionaryLastWins(formats[..|formats| - 1], fallback, i, key);
    }
  }

  /** The wildcard selects the fallback unless some format is itself filed under the wildcard. */
  lemma {:induction false} DictionaryWildcard(formats: seq<Format>, fallback: Format)
    requires forall j :: 0 <= j < |formats| ==> !Names(formats[j], Wildcard)
    ensures Wildcard in Dictionary(formats, fallback) && Dictionary(formats, fallback)[Wildcard] == fallback
  {
    if formats != [] {
      DictionaryWildcard(formats[..|formats| - 1], fallback);
    }
  }

  /** A first match, once found, is what `Preferred` returns. */
  lemma {:induction false} PreferredAt<F>(order: seq<Candidate>, formats: map<string, F>, i: nat)
    requires FirstAt(order, formats, i)
    ensures Preferred(order, formats) == Some(formats[order[i].key])
  {
    if i > 0 {
      assert FirstAt(order[1..], formats, i - 1);
      PreferredAt(order[1..], formats, i - 1);
    }
  }

  /**
   * Whatever order among equal weights the sort leaves, negotiation fails
   * exactly when no candidate's key is in the dictionary, and otherwise picks
   * the format of a heaviest candidate among those whose key is.
   */
  lemma NegotiationChoice(header: string, formats: map<string, Format>, toFloat: string -> real)
    ensures Preferred(Parse(header, toFloat), formats).None? <==>
              forall c :: c in Candidates(header, toFloat) ==> c.key !in formats
    ensures Preferred(Parse(header, toFloat), formats).Some? ==>
              exists c :: c in Candidates(header, toFloat) && c.key in formats &&
                Preferred(Parse(header, toFloat), formats).value == formats[c.key] &&
                forall d :: d in Candidates(header, toFloat) && d.key in formats ==> d.quality <= c.quality
  {
    PreferredIsBest(Parse(header, toFloat), Candidates(header, toFloat), formats);
  }

  /**
   * `negotiate(env, formats)`: walks the parsed candidates, heaviest first,
   * and returns the format of the first whose key the dictionary holds.
   */
  method Negotiate(env: Env, formats: map<string, Format>, toFloat: string -> real) returns (format: Option<Format>)
    ensures format == Preferred(Parse(AcceptHeader(env), toFloat), formats)
    ensures format.None? <==> forall c :: c in Candidates(AcceptHeader(env), toFloat) ==> c.key !in formats
    ensures format.Some? ==>
              exists c :: c in Candidates(AcceptHeader(env), toFloat) && c.key in formats && format.value == formats[c.key] &&
                forall d :: d in Candidates(AcceptHeader(env), toFloat) && d.key in formats ==> d.quality <= c.quality
  {
    var header := AcceptHeader(env);
    NegotiationChoice(header, formats, toFloat);
    var parsed := Parse(header, toFloat);
    format := None;
    for i := 0 to |parsed|
      invariant forall j :: 0 <= j < i ==> parsed[j].key !in formats
    {
      var candidate := parsed[i];
      if candidate.key in formats {
        assert FirstAt(parsed, formats, i);
        PreferredAt(parsed, formats, i);
        format := Some(formats[candidate.key]);
        return;
      }
    }
  }

  /** `respond_with(format)`: status 200, the format's content type, the marshalled registry. */
  function RespondWith(format: Format, registry: Registry): (response: Response)
    ensures response.status == 200
    ensures response.headers.Keys == {"Content-Type"} && response.headers["Content-Type"] == format.contentType
    ensures response.body == [Exposition(format, registry)]
  {
    Response(200, map["Content-Type" := format.contentType], [Exposition(format, registry)])
  }

  /** The media types the formats are known by, in order. */
  function MediaTypes(formats: seq<Format>): (types: seq<string>)
    ensures |types| == |formats|
    ensures forall i :: 0 <= i < |formats| ==> types[i] == formats[i].mediaType
  {
    seq(|formats|, i requires 0 <= i < |formats| => formats[i].mediaType)
  }

  const SupportedPrefix := "Supported media types: "

  /** `not_acceptable(formats)`: status 406, plain text listing the media types separated by ", ". */
  function NotAcceptable(formats: seq<Format>): (response: Response)
    ensures response.status == 406
    ensures response.headers.Keys == {"Content-Type"} && response.headers["Content-Type"] == "text/plain"
    ensures |response.body| == 1 && response.body[0].Plain?
    ensures StartsWith(response.body[0].text, SupportedPrefix)
    ensures response.body[0].text[|SupportedPrefix|..] == Join(MediaTypes(formats), ", ")
  {
    Response(406, map["Content-Type" := "text/plain"], [Plain(SupportedPrefix + Join(MediaTypes(formats), ", "))])
  }

  /** The label set each load-average sample is stored under. */
  function CpuLabels(window: string, pid: string): LabelSet {
    map["load_avg" := window, "pid" := pid]
  }

  /** The gauge's values after the 1, 5 and 15 minute load averages are stored. */
  function Sampled(values: map<LabelSet, real>, loadAvg: (real, real, real), pid: string): map<LabelSet, real> {
    values[CpuLabels("1_min", pid) := loadAvg.0][CpuLabels("5_min", pid) := loadAvg.1][CpuLabels("15_min", pid) := loadAvg.2]
  }

  class Exporter {
    const app: Env -> Response
    const registry: Registry
    const path: string
    const acceptable: map<string, Format>
    const cpuLoadGauge: Gauge
    /** Ruby's `String#to_f`, which converts the text of a `q=` parameter; left abstract. */
    const toFloat: string -> real

    /** The lookup table is the one built from `FORMATS` and `FALLBACK`. */
    predicate Valid() {
      acceptable == Dictionary(Formats, Fallback)
    }

    /**
     * `initialize(app, options)`: the path defaults to "/metrics"; the table
     * of acceptable types is built once; a fresh `cpu_load` gauge is created.
     */
    constructor (app: Env -> Response, registry: Registry, path: Option<string>, toFloat: string -> real)
      ensures this.app == app && this.registry == registry && this.toFloat == toFloat
      ensures this.path == if path.Some? then path.value else "/metrics"
      ensures Valid()
      ensures fresh(cpuLoadGauge) && cpuLoadGauge.name == "cpu_load"
      ensures cpuLoadGauge.docstring == "Current CPU Load" && cpuLoadGauge.values == map[]
    {
      this.app := app;
      this.registry := registry;
      this.path := if path.Some? then path.value else "/metrics";
      this.toFloat := toFloat;
      var dictionary := BuildDictionary(Formats, Fallback);
      acceptable := dictionary;
      cpuLoadGauge := new Gauge("cpu_load", "Current CPU Load");
    }

    /** The request is for the export path. */
    predicate OnPath(env: Env) {
      "PATH_INFO" in env && env["PATH_INFO"] == path
    }

    /** The response to a request for the export path. */
    function Answer(env: Env): (response: Response)
      ensures response == NotAcceptable(Formats) ||
              exists key :: key in acceptable && response == RespondWith(acceptable[key], registry)
    {
      var order := Parse(AcceptHeader(env), toFloat);
      match Preferred(order, acceptable)
      case Some(format) =>
        PreferredIsEntry(order, acceptable, format);
        RespondWith(format, registry)
      case None => NotAcceptable(Formats)
    }

    /** `instrument_cpu`: stores the three load averages under the process id. */
    method InstrumentCpu(loadAvg: (real, real, real), pid: string)
      modifies cpuLoadGauge
      ensures cpuLoadGauge.values == Sampled(old(cpuLoadGauge.values), loadAvg, pid)
    {
      var _ := cpuLoadGauge.Set(CpuLabels("1_min", pid), Some(loadAvg.0));
      var _ := cpuLoadGauge.Set(CpuLabels("5_min", pid), Some(loadAvg.1));
      var _ := cpuLoadGauge.Set(CpuLabels("15_min", pid), Some(loadAvg.2));
    }

    /**
     * `call(env)`: on the export path, samples the load averages and answers
     * with the negotiated format (or 406); on any other path, returns what
     * the next application returns and changes nothing.
     */
    method Call(env: Env, loadAvg: (real, real, real), pid: string) returns (response: Response)
      modifies cpuLoadGauge
      ensures OnPath(env) ==> response == Answer(env) &&
                              cpuLoadGauge.values == Sampled(old(cpuLoadGauge.values), loadAvg, pid)
      ensures !OnPath(env) ==> response == app(env) && cpuLoadGauge.values == old(cpuLoadGauge.values)
    {
      if OnPath(env) {
        InstrumentCpu(loadAvg, pid);
        var format := Negotiate(env, acceptable, toFloat);
        response := if format.Some? then RespondWith(format.value, registry) else NotAcceptable(Formats);
      } else {
        response := app(env);
      }
    }
  }

  /** With no format filed under the wildcard, a header of just the wildcard selects the fallback. */
  lemma WildcardSelectsFallback(formats: seq<Format>, fallback: Format, toFloat: string -> real)
    requires forall j :: 0 <= j < |formats| ==> !Names(formats[j], Wildcard)
    ensures Preferred(Parse(Wildcard, toFloat), Dictionary(formats, fallback)) == Some(fallback)
  {
    WildcardAttribute();
    DictionaryWildcard(formats, fallback);
    PlainHeaderSelects([Wildcard], Dictionary(formats, fallback), toFloat);
  }

  // The wildcard is a single bare attribute.
  lemma WildcardAttribute()
    ensures Attribute(Wildcard) && Join([Wildcard], "; ") == Wildcard
  {
  }

  /**
   * The list a 406 answer carries after its prefix splits back, at the commas,
   * into the media types of the formats, whenever those are free of commas
   * and of surrounding whitespace.
   */
  lemma {:induction false} NotAcceptableListsMediaTypes(formats: seq<Format>)
    requires Canonical(MediaTypes(formats), ',')
    ensures Split(NotAcceptable(formats).body[0].text[|SupportedPrefix|..], ',') == MediaTypes(formats)
  {
    assert ", " == "" + [','] + " ";
    SplitJoin(MediaTypes(formats), ',', "", " ");
  }

  /**
   * The media types a 406 answer lists, sent back as the Accept header, are
   * accepted: each of them is a key of the dictionary.
   */
  lemma AdvertisedTypesAccepted(formats: seq<Format>, fallback: Format, toFloat: string -> real)
    requires formats != [] && forall i :: 0 <= i < |formats| ==> Attribute(formats[i].mediaType)
    ensures Preferred(Parse(Join(MediaTypes(formats), ", "), toFloat), Dictionary(formats, fallback)).Some?
  {
    var types := MediaTypes(formats);
    var header := Join(types, ", ");
    var dictionary := Dictionary(formats, fallback);
    assert Canonical(types, ',');
    var spaces := seq(|types|, _ => " ");
    assert ", " == "" + [','] + " ";
    JoinIsGlued(types, ',', "", " ", [], spaces);
    JoinedRanges(types, [], spaces, toFloat);
    ParsePlainRange([types[0]], [], [], toFloat);
    assert Candidates(header, toFloat)[0] == Candidate(types[0], 1.0);
    DictionaryKeys(formats, fallback);
    assert formats[0] in formats;
    assert types[0] in dictionary;
    NegotiationChoice(header, dictionary, toFloat);
  }

  /** Every entry of the exporter's table is the text format. */
  lemma ExporterTable()
    ensures Dictionary(Formats, Fallback) ==
              map[Wildcard := Text, Text.contentType := Text, Text.mediaType := Text]
  {
    assert Formats[..0] == [];
  }

  /**
   * An answer is 200 exactly when some candidate of the Accept header is in
   * the table, and then carries the format of a heaviest such candidate;
   * otherwise it is the 406 answer.
   */
  lemma AnswerStatus(e: Exporter, env: Env)
    ensures e.Answer(env).status == 200 <==>
              exists c :: c in Candidates(AcceptHeader(env), e.toFloat) && c.key in e.acceptable
    ensures e.Answer(env).status == 200 ==>
              exists c :: c in Candidates(AcceptHeader(env), e.toFloat) && c.key in e.acceptable &&
                e.Answer(env) == RespondWith(e.acceptable[c.key], e.registry) &&
                forall d :: d in Candidates(AcceptHeader(env), e.toFloat) && d.key in e.acceptable ==> d.quality <= c.quality
    ensures e.Answer(env).status != 200 ==> e.Answer(env) == NotAcceptable(Formats)
  {
    var header := AcceptHeader(env);
    NegotiationChoice(header, e.acceptable, e.toFloat);
    var choice := Preferred(Parse(header, e.toFloat), e.acceptable);
    if choice.Some? {
      assert e.Answer(env) == RespondWith(choice.value, e.registry);
    } else {
      assert e.Answer(env) == NotAcceptable(Formats);
    }
  }

  /** A request without an Accept header is answered in the fallback (text) format. */
  lemma MissingAcceptServesFallback(e: Exporter, env: Env)
    requires e.Valid() && "HTTP_ACCEPT" !in env
    ensures e.Answer(env) == RespondWith(Fallback, e.registry)
  {
    WildcardSelectsFallback(Formats, Fallback, e.toFloat);
  }

  /** A header of one candidate selects whatever the table files under that candidate's key. */
  lemma SingleCandidate(header: string, formats: map<string, Format>, toFloat: string -> real, key: string, quality: real)
    requires Candidates(header, toFloat) == [Candidate(key, quality)]
    ensures Preferred(Parse(header, toFloat), formats) == if key in formats then Some(formats[key]) else None
  {
    NegotiationChoice(header, formats, toFloat);
  }

  /**
   * A header made of attributes alone, with any whitespace around its
   * semicolons, selects the format filed under the attributes joined with
   * "; ", if any.
   */
  lemma PaddedHeaderSelects(parts: seq<string>, w1s: seq<string>, w2s: seq<string>, formats: map<string, Format>, toFloat: string -> real)
    requires parts != [] && forall i :: 0 <= i < |parts| ==> Attribute(parts[i])
    requires AllSpaces(w1s) && AllSpaces(w2s)
    ensures Preferred(Parse(Glued(parts, ';', w1s, w2s), toFloat), formats) ==
              if Join(parts, "; ") in formats then Some(formats[Join(parts, "; ")]) else None
  {
    PlainHeader(parts, w1s, w2s, toFloat);
    SingleCandidate(Glued(parts, ';', w1s, w2s), formats, toFloat, Join(parts, "; "), 1.0);
  }

  /** A header made of attributes joined with "; " selects the format filed under it, if any. */
  lemma PlainHeaderSelects(parts: seq<string>, formats: map<string, Format>, toFloat: string -> real)
    requires parts != [] && forall i :: 0 <= i < |parts| ==> Attribute(parts[i])
    ensures Preferred(Parse(Join(parts, "; "), toFloat), formats) ==
              if Join(parts, "; ") in formats then Some(formats[Join(parts, "; ")]) else None
  {
    var spaces := seq(|parts|, _ => " ");
    assert "" + [';'] + " " == "; ";
    JoinIsGlued(parts, ';', "", " ", [], spaces);
    PaddedHeaderSelects(parts, [], spaces, formats, toFloat);
  }

  /** "text/plain" is a bare attribute: no separator, no padding, no weight. */
  lemma PlainAttribute()
    ensures Attribute("text/plain")
  {
    assert "text/plain"[..2][0] == 't';
  }

  // "text/*" is a bare attribute as well, and the whole of a header made of it alone.
  lemma TextWildcardAttribute()
    ensures Attribute("text/*") && Join(["text/*"], "; ") == "text/*"
  {
    assert "text/*"[..2][0] == 't';
  }

  /** "version=0.0.4" is a bare attribute too, not a weight. */
  lemma VersionAttribute()
    ensures Attribute("version=0.0.4")
  {
    assert "version=0.0.4"[..2][0] == 'v';
  }

  /** The exporter's content type is the attributes "text/plain" and "version=0.0.4" joined. */
  lemma ContentTypeParts()
    ensures var parts := ["text/plain", "version=0.0.4"];
      Join(parts, "; ") == Text.contentType && forall i :: 0 <= i < |parts| ==> Attribute(parts[i])
  {
    var parts := ["text/plain", "version=0.0.4"];
    PlainAttribute();
    VersionAttribute();
    assert Join(parts[1..], "; ") == parts[1];
  }

  /** The exporter's own content type selects the text format. */
  lemma ContentTypeSelects(toFloat: string -> real)
    ensures Preferred(Parse(Text.contentType, toFloat), Dictionary(Formats, Fallback)) == Some(Text)
  {
    ContentTypeParts();
    PlainHeaderSelects(["text/plain", "version=0.0.4"], Dictionary(Formats, Fallback), toFloat);
    ExporterTable();
  }

  /**
   * The exporter's content type written without the space after the
   * semicolon is normalised to the table key and selects the text format.
   */
  lemma CompactContentTypeSelects(header: string, toFloat: string -> real)
    requires header == "text/plain;version=0.0.4"
    ensures Preferred(Parse(header, toFloat), Dictionary(Formats, Fallback)) == Some(Text)
  {
    var parts := ["text/plain", "version=0.0.4"];
    ContentTypeParts();
    CompactContentType(header);
    PaddedHeaderSelects(parts, [], [], Dictionary(Formats, Fallback), toFloat);
    ExporterTable();
  }

  /** "text/plain;version=0.0.4" is the content type's attributes joined by a bare semicolon. */
  lemma CompactContentType(header: string)
    requires header == "text/plain;version=0.0.4"
    ensures Glued(["text/plain", "version=0.0.4"], ';', [], []) == header
  {
    var parts := ["text/plain", "version=0.0.4"];
    assert Glued(parts[1..], ';', [], []) == parts[1];
  }

  /**
   * A header whose separators carry different whitespace, the first
   * semicolon bare and the second followed by a space, is normalised to the
   * table key and selects the text format at its weight.
   */
  lemma MixedSpacingSelects(header: string, toFloat: string -> real)
    requires header == "text/plain;version=0.0.4; q=0.5"
    ensures Candidates(header, toFloat) == [Candidate(Text.contentType, toFloat("0.5"))]
    ensures Preferred(Parse(header, toFloat), Dictionary(Formats, Fallback)) == Some(Text)
  {
    var parts := ["text/plain", "version=0.0.4"];
    ContentTypeParts();
    MixedSpacingHeader(header);
    HalfWeight();
    WeightedHeader(parts, "0.5", [], ["", " "], toFloat);
    SingleCandidate(header, Dictionary(Formats, Fallback), toFloat, Text.contentType, toFloat("0.5"));
    ExporterTable();
  }

  /** "text/plain;version=0.0.4; q=0.5" glues the content type's attributes and a weight with different spacing. */
  lemma MixedSpacingHeader(header: string)
    requires header == "text/plain;version=0.0.4; q=0.5"
    ensures Glued(["text/plain", "version=0.0.4"] + ["q=" + "0.5"], ';', [], ["", " "]) == header
  {
    GluedWeighted("text/plain", "version=0.0.4", "0.5", ';');
  }

  /** Two attributes and a weight glued with no whitespace at the first separator and one space after the second. */
  lemma GluedWeighted(a: string, b: string, v: string, sep: char)
    ensures Glued([a, b] + ["q=" + v], sep, [], ["", " "]) == a + [sep] + b + [sep] + " " + "q=" + v
  {
    var parts := [a, b] + ["q=" + v];
    assert parts[1..] == [b, "q=" + v] && parts[2..] == ["q=" + v];
    assert Glued(parts[2..], sep, [], []) == "q=" + v;
    assert Glued(parts[1..], sep, [], [" "]) == b + [sep] + " " + ("q=" + v);
  }

  /** The weight "0.5" is a valid `q=` value: non-empty, unpadded, free of separators. */
  lemma HalfWeight()
    ensures "0.5" != [] && ',' !in "0.5" && ';' !in "0.5" && Unpadded("0.5") && Free("0.5", "q=")
  {
  }

  /** A request whose Accept is the content type without the space is answered 200 in the text format. */
  lemma CompactContentTypeServed(e: Exporter, env: Env)
    requires e.Valid() && "HTTP_ACCEPT" in env && env["HTTP_ACCEPT"] == "text/plain;version=0.0.4"
    ensures e.Answer(env) == RespondWith(Text, e.registry)
  {
    CompactContentTypeSelects(env["HTTP_ACCEPT"], e.toFloat);
  }

  /** The exporter's bare media type selects the text format. */
  lemma MediaTypeSelects(toFloat: string -> real)
    ensures Preferred(Parse(Text.mediaType, toFloat), Dictionary(Formats, Fallback)) == Some(Text)
  {
    var parts := ["text/plain"];
    assert Attribute(parts[0]) by { assert parts[0][..2][0] == 't'; }
    assert Join(parts, "; ") == Text.mediaType;
    PlainHeaderSelects(parts, Dictionary(Formats, Fallback), toFloat);
    ExporterTable();
  }

  /**
   * The content type of a 200 answer, or the bare media type, sent back as
   * the Accept header selects the text format again.
   */
  lemma OwnTypesSelectText(e: Exporter, env: Env)
    requires e.Valid() && "HTTP_ACCEPT" in env
    requires env["HTTP_ACCEPT"] == Text.contentType || env["HTTP_ACCEPT"] == Text.mediaType
    ensures e.Answer(env) == RespondWith(Text, e.registry)
  {
    if env["HTTP_ACCEPT"] == Text.contentType {
      ContentTypeSelects(e.toFloat);
    } else {
      MediaTypeSelects(e.toFloat);
    }
  }

  /**
   * For any list of formats: the Content-Type a 200 answer carries, sent back
   * as the Accept header, selects the format that answered, provided that
   * content type is a list of bare attributes and no later format is filed
   * under it.
   */
  lemma RespondedTypeSelectsFormat(formats: seq<Format>, fallback: Format, i: nat, parts: seq<string>,
                                   registry: Registry, toFloat: string -> real)
    requires i < |formats| && formats[i].contentType == Join(parts, "; ")
    requires parts != [] && forall k :: 0 <= k < |parts| ==> Attribute(parts[k])
    requires forall j :: i < j < |formats| ==> !Names(formats[j], formats[i].contentType)
    ensures Preferred(Parse(RespondWith(formats[i], registry).headers["Content-Type"], toFloat),
                      Dictionary(formats, fallback)) == Some(formats[i])
  {
    DictionaryLastWins(formats, fallback, i, formats[i].contentType);
    PlainHeaderSelects(parts, Dictionary(formats, fallback), toFloat);
  }

  // A partial wildcard is not expanded: the header "text/*" selects nothing.
  lemma PartialWildcardSelectsNothing(header: string, toFloat: string -> real)
    requires header == "text/*"
    ensures Preferred(Parse(header, toFloat), Dictionary(Formats, Fallback)) == None
  {
    var table := Dictionary(Formats, Fallback);
    ExporterTable();
    assert header !in table by {
      assert |header| == 6 && header[5] == '*';
    }
    TextWildcardAttribute();
    PlainHeaderSelects([header], table, toFloat);
  }

  // A partial wildcard is not expanded: "text/*" matches nothing and is answered with 406.
  lemma PartialWildcardNotAcceptable(e: Exporter, env: Env)
    requires e.Valid() && "HTTP_ACCEPT" in env && env["HTTP_ACCEPT"] == "text/*"
    ensures e.Answer(env) == NotAcceptable(Formats)
  {
    PartialWildcardSelectsNothing(env["HTTP_ACCEPT"], e.toFloat);
  }

  /** "text/plain; q=0" is the attribute "text/plain" followed by the weight attribute "q=0". */
  lemma ZeroWeightParts()
    ensures Glued(["text/plain"] + ["q=" + "0"], ';', [], [" "]) == "text/plain; q=0"
    ensures Free("0", "q=") && Unpadded("0")
  {
  }

  /** The header "text/plain; q=0" is one candidate: "text/plain" at the weight "0" converts to. */
  lemma ZeroWeightCandidate(header: string, toFloat: string -> real)
    requires header == "text/plain; q=0"
    ensures Candidates(header, toFloat) == [Candidate("text/plain", toFloat("0"))]
  {
    PlainAttribute();
    ZeroWeightParts();
    WeightedHeader(["text/plain"], "0", [], [" "], toFloat);
  }

  /** A weight of 0 does not make a type unacceptable: "text/plain; q=0" is still served. */
  lemma ZeroWeightStillServed(e: Exporter, env: Env)
    requires e.Valid() && "HTTP_ACCEPT" in env && env["HTTP_ACCEPT"] == "text/plain; q=0"
    ensures e.Answer(env) == RespondWith(Text, e.registry)
  {
    ZeroWeightCandidate(env["HTTP_ACCEPT"], e.toFloat);
    SingleCandidate(env["HTTP_ACCEPT"], e.acceptable, e.toFloat, "text/plain", e.toFloat("0"));
    ExporterTable();
  }

  /** The 406 answer of the exporter lists "text/plain", which is accepted when sent back. */
  lemma NotAcceptableListsAcceptedType(e: Exporter, env: Env)
    requires e.Valid() && "HTTP_ACCEPT" in env && env["HTTP_ACCEPT"] == Join(MediaTypes(Formats), ", ")
    ensures NotAcceptable(Formats).body == [Plain(SupportedPrefix + "text/plain")]
    ensures e.Answer(env).status == 200
  {
    assert MediaTypes(Formats) == ["text/plain"];
    PlainAttribute();
    AdvertisedTypesAccepted(Formats, Fallback, e.toFloat);
  }
}
